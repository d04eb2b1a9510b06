/** internal/ledger/jsonl.go and internal/ledger/lock_unix.go: the append-only ledger, its in-memory
    map and its lock. */
module Ledger {
  import opened Text
  import opened Identity
  import opened LedgerLog

  /** The ledger's file and its lock file, as the operating system keeps them. A file that does not
      exist is an empty one. */
  class Disk {
    var bytes: string
    var holder: JSONL?
    /** Every append so far. */
    ghost var writes: seq<Write>

    constructor ()
      ensures bytes == "" && holder == null && writes == []
    {
      bytes, holder, writes := "", null, [];
    }

    ghost predicate Valid(c: Codec)
      reads this
    {
      AllPossible(c, writes) && bytes == File(c, writes)
    }
  }

  datatype Opening = Opened(ledger: JSONL) | CorruptEntry | ScanError

  datatype Locking = Held | Busy | NoLockFile

  /** What happens to one append: the file opens or not, some bytes land, the sync works or not. */
  datatype Fate = Fate(opens: bool, landed: nat, synced: bool)

  /** The time is stamped when the caller left it zero. */
  function Stamped(e: Entry, now: int): Entry {
    if e.updatedAt == 0 then e.(updatedAt := now) else e
  }

  function Attempt(c: Codec, e: Entry, fate: Fate): Write {
    var n := |Line(c, e)|;
    Write(e, if fate.landed < n then fate.landed else n, fate.landed >= n && fate.synced)
  }

  /** The largest update time, and zero if there is none above it. */
  ghost predicate IsCursor(mem: map<string, Entry>, t: int) {
    && t >= 0
    && (forall k :: k in mem ==> mem[k].updatedAt <= t)
    && (t > 0 ==> exists k :: k in mem && mem[k].updatedAt == t)
  }

  class JSONL {
    const disk: Disk
    const codec: Codec
    var mem: map<string, Entry>
    /** The lock file is open and locked by this instance. */
    var locked: bool
    /** How many appends the file held when this instance opened it, and its own since then. */
    ghost const atOpen: nat
    ghost var own: seq<Write>

    ghost predicate Valid()
      reads this, disk
    {
      && disk.Valid(codec)
      && (locked <==> disk.holder == this)
      && atOpen <= |disk.writes|
      && mem == Fold(map[], Seen())
    }

    /** What this instance knows of: the entries that were whole when it opened, then its own
        acknowledged puts. */
    ghost function Seen(): seq<Write>
      reads this, disk
      requires atOpen <= |disk.writes|
    {
      Whole(codec, disk.writes[..atOpen]) + Acked(own)
    }

    /** Nobody else has written since. */
    ghost predicate Alone()
      reads this, disk
      requires atOpen <= |disk.writes|
    {
      disk.writes == disk.writes[..atOpen] + own
    }

    constructor (disk: Disk, codec: Codec, mem: map<string, Entry>)
      ensures this.disk == disk && this.codec == codec && this.mem == mem && !locked
      ensures atOpen == |disk.writes| && own == []
    {
      this.disk, this.codec, this.mem, this.locked := disk, codec, mem, false;
      this.atOpen, this.own := |disk.writes|, [];
    }

    /** Replay the file; any line that does not parse refuses it. */
    static method Open(disk: Disk, codec: Codec) returns (r: Opening)
      requires Faithful(codec) && disk.Valid(codec)
      ensures r.Opened? <==> Readable(codec, disk.writes)
      ensures r.Opened? ==>
        var l := r.ledger;
        && fresh(l) && l.Valid() && l.disk == disk && l.codec == codec && !l.locked
        && l.atOpen == |disk.writes| && l.own == [] && l.Alone()
      ensures r == ScanError <==> Replay(codec, disk.bytes, map[]) == TooLong
    {
      ReplayIsExact(codec, disk.writes, map[]);
      hide Replay, Readable, File, Whole, Fold, Faithful;
      var load := Scan(disk.bytes, codec);
      match load
      case Corrupt => return CorruptEntry;
      case TooLong => return ScanError;
      case Loaded(mem) =>
        var l := new JSONL(disk, codec, mem);
        assert disk.writes[..l.atOpen] == disk.writes;
        assert l.Seen() == Whole(codec, disk.writes) by { AckedNone(); }
        return Opened(l);
    }

    /** The scanner's loop. */
    static method Scan(bytes: string, codec: Codec) returns (r: Load)
      ensures r == Replay(codec, bytes, map[])
    {
      hide Replay, LineEnd, Read;
      var mem: map<string, Entry> := map[];
      var at := 0;
      assert bytes[0..] == bytes;
      while at < |bytes|
        invariant at <= |bytes|
        invariant Replay(codec, bytes[at..], mem) == Replay(codec, bytes, map[])
      {
        var i := LineEnd(bytes, at);
        ReplayStep(codec, bytes, at, mem);
        if i - at >= MAX_LINE {
          return TooLong;
        }
        var raw := DropCR(bytes[at..i]);
        if |raw| != 0 {
          var e := codec.dec(raw);
          if e.None? {
            return Corrupt;
          }
          mem := mem[KeyOf(e.value.id) := e.value];
        }
        at := if i < |bytes| then i + 1 else i;
      }
      assert bytes[at..] == "";
      ReplayNothing(codec, mem);
      return Loaded(mem);
    }

    method Get(id: LessonID) returns (e: Option<Entry>)
      ensures e == if KeyOf(id) in mem then Some(mem[KeyOf(id)]) else None
    {
      if KeyOf(id) in mem {
        return Some(mem[KeyOf(id)]);
      }
      return None;
    }

    /** Append a line; the map follows only if the whole line is known to be on disk. */
    method Put(e0: Entry, now: int, fate: Fate) returns (ok: bool)
      requires Valid()
      modifies this`mem, this`own, disk`bytes, disk`writes
      ensures Valid()
      ensures var e := Stamped(e0, now);
        var w := Attempt(codec, e, fate);
        && ok == (fate.opens && w.acked)
        && disk.writes == (if fate.opens then old(disk.writes) + [w] else old(disk.writes))
        && own == (if fate.opens then old(own) + [w] else old(own))
        && (old(Alone()) ==> Alone())
        && mem == if ok then old(mem)[KeyOf(e.id) := e] else old(mem)
      ensures ok <==> fate.opens && fate.synced && fate.landed > |codec.enc(Stamped(e0, now))|
      ensures ok ==> KeyOf(e0.id) in mem
      ensures ok ==> mem[KeyOf(e0.id)] == if e0.updatedAt != 0 then e0 else e0.(updatedAt := now)
    {
      hide Fold, Whole, Acked, File, Landed, KeyOf, AllPossible;
      var e := e0;
      if e.updatedAt == 0 {
        e := e.(updatedAt := now);
      }
      var raw := codec.enc(e);
      if !fate.opens {
        return false;
      }
      var line := raw + "\n";
      var n := if fate.landed < |line| then fate.landed else |line|;
      ghost var w := Attempt(codec, e, fate);
      AppendSees(codec, disk.writes, atOpen, own, w);
      disk.bytes := disk.bytes + line[..n];
      disk.writes := disk.writes + [w];
      own := own + [w];
      if n < |line| {
        return false;
      }
      if !fate.synced {
        return false;
      }
      mem := mem[KeyOf(e.id) := e];
      return true;
    }

    method Cursor() returns (max: int)
      ensures IsCursor(mem, max)
    {
      max := 0;
      var left := mem.Keys;
      while left != {}
        invariant left <= mem.Keys && max >= 0
        invariant forall k :: k in mem && k !in left ==> mem[k].updatedAt <= max
        invariant max > 0 ==> exists k :: k in mem && mem[k].updatedAt == max
      {
        var k :| k in left;
        if mem[k].updatedAt > max {
          max := mem[k].updatedAt;
        }
        left := left - {k};
      }
    }

    /** Exclusive and non-blocking; an instance that holds the lock already is told so. */
    method Lock(opens: bool) returns (r: Locking)
      requires Valid()
      modifies this`locked, disk`holder
      ensures Valid()
      ensures r == Held <==> old(disk.holder) == this || (old(disk.holder) == null && opens)
      ensures r == Held <==> locked
      ensures r == Busy <==> old(disk.holder) != null && old(disk.holder) != this && opens
      ensures r != Held ==> disk.holder == old(disk.holder)
    {
      if locked {
        return Held;
      }
      if !opens {
        return NoLockFile;
      }
      if disk.holder != null {
        return Busy;
      }
      disk.holder := this;
      locked := true;
      return Held;
    }

    /** The lock is free afterwards even when the system reports that unlocking or closing failed. */
    method Unlock(unlocks: bool, closes: bool) returns (ok: bool)
      requires Valid()
      modifies this`locked, disk`holder
      ensures Valid() && !locked
      ensures disk.holder == if old(disk.holder) == this then null else old(disk.holder)
      ensures ok <==> old(disk.holder) != this || (unlocks && closes)
    {
      if !locked {
        return true;
      }
      disk.holder := null;
      locked := false;
      return unlocks && closes;
    }
  }

  /** One more append of an instance's own. */
  lemma AppendSees(c: Codec, ws: seq<Write>, atOpen: nat, own: seq<Write>, w: Write)
    requires AllPossible(c, ws) && Possible(c, w) && atOpen <= |ws|
    ensures AllPossible(c, ws + [w]) && File(c, ws + [w]) == File(c, ws) + Line(c, w.e)[..w.landed]
    ensures var before := Whole(c, ws[..atOpen]);
      && (ws + [w])[..atOpen] == ws[..atOpen]
      && (ws == ws[..atOpen] + own ==> ws + [w] == ws[..atOpen] + (own + [w]))
      && (!w.acked ==> before + Acked(own + [w]) == before + Acked(own))
      && (w.acked ==> Fold(map[], before + Acked(own + [w])) == Fold(map[], before + Acked(own))[KeyOf(w.e.id) := w.e])
  {
    hide Fold, Whole, Acked, File, KeyOf;
    var before := Whole(c, ws[..atOpen]);
    FileSnoc(c, ws, w);
    AckedSnoc(own, w);
    FoldSnoc(map[], before + Acked(own), w);
    assert (ws + [w])[..atOpen] == ws[..atOpen];
    assert ws[..atOpen] + (own + [w]) == (ws[..atOpen] + own) + [w];
    assert before + (Acked(own) + [w]) == before + Acked(own) + [w];
    assert Acked(own) + [] == Acked(own);
  }

  lemma AckedNone()
    ensures Acked([]) == []
  {
  }

  lemma TailSnoc(ws: seq<Write>, w: Write)
    requires ws != []
    ensures (ws + [w])[1..] == ws[1..] + [w] && (ws + [w])[0] == ws[0]
  {
  }

  lemma {:induction false} AckedSnoc(ws: seq<Write>, w: Write)
    ensures Acked(ws + [w]) == Acked(ws) + (if w.acked then [w] else [])
    decreases |ws|
  {
    if ws == [] {
      assert [] + [w] == [w] && [w][1..] == [];
    } else {
      TailSnoc(ws, w);
      AckedSnoc(ws[1..], w);
      var first := if ws[0].acked then [ws[0]] else [];
      assert Acked(ws + [w]) == first + Acked(ws[1..] + [w]);
    }
  }

  /** One line of a replay. */
  lemma ReplayStep(c: Codec, bytes: string, at: nat, mem: map<string, Entry>)
    requires at < |bytes|
    ensures var i := LineEnd(bytes, at);
      var next := if i < |bytes| then i + 1 else i;
      var raw := DropCR(bytes[at..i]);
      var r := Replay(c, bytes[at..], mem);
      && at < next
      && if i - at >= MAX_LINE then r == TooLong
         else if raw == "" then r == Replay(c, bytes[next..], mem)
         else if c.dec(raw).None? then r == Corrupt
         else r == Replay(c, bytes[next..], mem[KeyOf(c.dec(raw).value.id) := c.dec(raw).value])
  {
    hide Replay, LineEnd, DropCR;
    LineEndSuffix(bytes, at, 0);
    var i, rest := LineEnd(bytes, at), bytes[at..];
    UnfoldReplay(c, rest, mem);
    assert rest[..i - at] == bytes[at..i];
    if i < |bytes| {
      assert rest[i - at + 1..] == bytes[i + 1..];
    } else {
      assert bytes[i..] == "";
      ReplayNothing(c, mem);
      var e := c.dec(DropCR(bytes[at..i]));
      if e.Some? { ReplayNothing(c, mem[KeyOf(e.value.id) := e.value]); }
    }
  }

  lemma UnfoldReplay(c: Codec, s: string, mem: map<string, Entry>)
    requires s != ""
    ensures var i := LineEnd(s, 0);
      var r := Read(c, s[..i], mem);
      Replay(c, s, mem) == if !r.Loaded? || i == |s| then r else Replay(c, s[i + 1..], r.mem)
  {
    hide LineEnd, Read;
  }

  lemma {:induction false} LineEndSuffix(s: string, at: nat, k: nat)
    requires at + k <= |s|
    ensures LineEnd(s, at + k) == at + LineEnd(s[at..], k)
    decreases |s| - k
  {
    if at + k < |s| && s[at + k] != '\n' { LineEndSuffix(s, at, k + 1); }
  }

  /** Two instances over the same files never both hold the lock. */
  lemma OnlyOneHolds(l: JSONL, m: JSONL)
    requires l.Valid() && m.Valid() && l.disk == m.disk && l.locked && m.locked
    ensures l == m
  {
  }

  lemma {:induction false} FileSnoc(c: Codec, ws: seq<Write>, w: Write)
    requires AllPossible(c, ws) && Possible(c, w)
    ensures AllPossible(c, ws + [w])
    ensures File(c, ws + [w]) == File(c, ws) + Landed(c, w)
    decreases |ws|
  {
    if ws == [] {
      assert [] + [w] == [w] && [w][1..] == [];
    } else {
      assert (ws + [w])[1..] == ws[1..] + [w];
      FileSnoc(c, ws[1..], w);
    }
  }
}
