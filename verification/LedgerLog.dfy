/** The ledger file: lines, torn appends and what a replay makes of them. The entry codec stands for
    encoding/json; `Faithful` is what is asked of it. */
module LedgerLog {
  import opened Text
  import opened Identity

  /** Times are integers; 0 is the zero time. */
  datatype Entry = Entry(id: LessonID, stage: string, url: string, hash: string, model: string, updatedAt: int)

  datatype Codec = Codec(enc: Entry -> string, dec: string -> Option<Entry>)

  predicate OneLine(s: string) { forall k :: 0 <= k < |s| ==> s[k] != '\n' && s[k] != '\r' }

  function Concat(fs: seq<string>): string {
    if fs == [] then "" else Concat(fs[..|fs| - 1]) + fs[|fs| - 1]
  }

  /** What a torn append leaves of an entry: some of its bytes, or all of them without the newline. */
  ghost predicate Fragment(c: Codec, f: string) {
    f != "" && exists e :: f <= c.enc(e)
  }

  ghost predicate Fragments(c: Codec, fs: seq<string>) {
    forall k :: 0 <= k < |fs| ==> Fragment(c, fs[k])
  }

  /** Entries round-trip on one line; a torn entry and several glued together are rejected. */
  ghost predicate Faithful(c: Codec) {
    && (forall e :: c.dec(c.enc(e)) == Some(e) && c.enc(e) != "" && OneLine(c.enc(e)))
    && (forall e, f :: f < c.enc(e) && f != "" ==> c.dec(f) == None)
    && (forall fs :: |fs| >= 2 && Fragments(c, fs) ==> c.dec(Concat(fs)) == None)
  }

  // ---------------------------------------------------------------- reading

  const MAX_LINE := 4 * 1024 * 1024

  datatype Load = Loaded(mem: map<string, Entry>) | Corrupt | TooLong

  function LineEnd(s: string, k: nat): (i: nat)
    requires k <= |s|
    ensures k <= i <= |s| && (i < |s| ==> s[i] == '\n')
    ensures forall m :: k <= m < i ==> s[m] != '\n'
    decreases |s| - k
  {
    if k == |s| || s[k] == '\n' then k else LineEnd(s, k + 1)
  }

  /** bufio.ScanLines drops one trailing carriage return. */
  function DropCR(line: string): string {
    if line != "" && line[|line| - 1] == '\r' then line[..|line| - 1] else line
  }

  function Read(c: Codec, line: string, mem: map<string, Entry>): Load {
    if |line| >= MAX_LINE then TooLong
    else if DropCR(line) == "" then Loaded(mem)
    else match c.dec(DropCR(line))
      case None => Corrupt
      case Some(e) => Loaded(mem[KeyOf(e.id) := e])
  }

  /** Replay the bytes from the front, the last entry of a key winning. */
  function Replay(c: Codec, bytes: string, mem: map<string, Entry>): Load
    decreases |bytes|
  {
    if bytes == "" then Loaded(mem)
    else
      var i := LineEnd(bytes, 0);
      var r := Read(c, bytes[..i], mem);
      if !r.Loaded? || i == |bytes| then r else Replay(c, bytes[i + 1..], r.mem)
  }

  // ---------------------------------------------------------------- writing

  /** One append: how many bytes of the line reached the file, and whether Put reported success. */
  datatype Write = Write(e: Entry, landed: nat, acked: bool)

  function Line(c: Codec, e: Entry): string { c.enc(e) + "\n" }

  /** Put reports success only for a whole line. */
  predicate Possible(c: Codec, w: Write) {
    w.landed <= |Line(c, w.e)| && (w.acked ==> w.landed == |Line(c, w.e)|)
  }

  predicate AllPossible(c: Codec, ws: seq<Write>) { forall k :: 0 <= k < |ws| ==> Possible(c, ws[k]) }

  function Landed(c: Codec, w: Write): string
    requires Possible(c, w)
  {
    Line(c, w.e)[..w.landed]
  }

  /** The file after a history of appends. */
  function File(c: Codec, ws: seq<Write>): string
    requires AllPossible(c, ws)
  {
    if ws == [] then "" else Landed(c, ws[0]) + File(c, ws[1..])
  }

  /** The appends whose entry is in the file whole, its newline perhaps missing. */
  function Whole(c: Codec, ws: seq<Write>): seq<Write> {
    if ws == [] then []
    else (if ws[0].landed >= |c.enc(ws[0].e)| then [ws[0]] else []) + Whole(c, ws[1..])
  }

  function Acked(ws: seq<Write>): seq<Write> {
    if ws == [] then [] else (if ws[0].acked then [ws[0]] else []) + Acked(ws[1..])
  }

  /** Last wins. */
  function Fold(mem: map<string, Entry>, ws: seq<Write>): map<string, Entry>
    decreases |ws|
  {
    if ws == [] then mem else Fold(mem[KeyOf(ws[0].e.id) := ws[0].e], ws[1..])
  }

  predicate Silent(ws: seq<Write>) { forall k :: 0 <= k < |ws| ==> ws[k].landed == 0 }

  /** Every append left nothing or a whole line short enough to be read back; only the last bytes
      of the file may lack their newline. */
  predicate Readable(c: Codec, ws: seq<Write>)
    decreases |ws|
  {
    if ws == [] then true
    else
      var n := |c.enc(ws[0].e)|;
      && (ws[0].landed == 0 || (ws[0].landed >= n && n < MAX_LINE))
      && (if ws[0].landed == n then Silent(ws[1..]) else Readable(c, ws[1..]))
  }

  // ---------------------------------------------------------------- the replay theorem

  lemma FirstLine(a: string, rest: string)
    requires forall k :: 0 <= k < |a| ==> a[k] != '\n'
    ensures LineEnd(a, 0) == |a|
    ensures var s := a + "\n" + rest; LineEnd(s, 0) == |a| && s[..|a|] == a && s[|a| + 1..] == rest
  {
    var s := a + "\n" + rest;
    assert s[|a|] == '\n';
    assert forall k :: 0 <= k < |a| ==> s[k] == a[k];
  }

  /** One line ended by a newline. */
  lemma ReplayLine(c: Codec, a: string, rest: string, mem: map<string, Entry>)
    requires OneLine(a) && a != ""
    ensures var r := Replay(c, a + "\n" + rest, mem);
      if |a| >= MAX_LINE then r == TooLong
      else if c.dec(a).None? then r == Corrupt
      else r == Replay(c, rest, mem[KeyOf(c.dec(a).value.id) := c.dec(a).value])
  {
    FirstLine(a, rest);
  }

  /** The last line of a file that lacks its newline. */
  lemma ReplayLast(c: Codec, a: string, mem: map<string, Entry>)
    requires OneLine(a) && a != ""
    ensures var r := Replay(c, a, mem);
      if |a| >= MAX_LINE then r == TooLong
      else if c.dec(a).None? then r == Corrupt
      else r == Loaded(mem[KeyOf(c.dec(a).value.id) := c.dec(a).value])
  {
    FirstLine(a, "");
    assert a[..|a|] == a;
  }

  /** What an append adds to a line already begun: nothing, a fragment, or a fragment that ends it. */
  lemma AppendShape(c: Codec, a: string, ws: seq<Write>) returns (f: string)
    requires Faithful(c) && AllPossible(c, ws) && ws != []
    ensures ws[0].landed == 0 ==> a + File(c, ws) == a + File(c, ws[1..])
    ensures ws[0].landed > 0 ==> Fragment(c, f)
    ensures 0 < ws[0].landed <= |c.enc(ws[0].e)| ==> a + File(c, ws) == (a + f) + File(c, ws[1..])
    ensures ws[0].landed > |c.enc(ws[0].e)| ==> f == c.enc(ws[0].e) && a + File(c, ws) == (a + f) + "\n" + File(c, ws[1..])
    ensures 0 < ws[0].landed <= |c.enc(ws[0].e)| ==> f == c.enc(ws[0].e)[..ws[0].landed]
  {
    var w, rest := ws[0], File(c, ws[1..]);
    assert c.enc(w.e) != "";
    FileCons(c, ws);
    if w.landed <= |c.enc(w.e)| {
      f := c.enc(w.e)[..w.landed];
      assert w.landed > 0 ==> f <= c.enc(w.e) && f != "";
      assert Landed(c, w) == f;
      Associate(a, f, rest);
      assert w.landed == 0 ==> f == "" && a + f == a;
    } else {
      f := c.enc(w.e);
      assert f <= c.enc(w.e);
      assert Landed(c, w) == f + "\n";
      Associate(a, f, "\n");
      Associate(a, f + "\n", rest);
    }
  }

  lemma FileCons(c: Codec, ws: seq<Write>)
    requires AllPossible(c, ws) && ws != []
    ensures Possible(c, ws[0]) && File(c, ws) == Landed(c, ws[0]) + File(c, ws[1..])
  {
  }

  lemma Associate(a: string, b: string, c: string)
    ensures a + (b + c) == a + b + c
  {
  }

  lemma SilentCons(ws: seq<Write>)
    requires ws != []
    ensures Silent(ws) <==> ws[0].landed == 0 && Silent(ws[1..])
  {
    if ws[0].landed == 0 && Silent(ws[1..]) {
      forall k | 0 <= k < |ws| ensures ws[k].landed == 0 { if k > 0 { assert ws[k] == ws[1..][k - 1]; } }
    }
  }

  lemma {:induction false} ConcatOneLine(c: Codec, fs: seq<string>)
    requires Faithful(c) && Fragments(c, fs)
    ensures OneLine(Concat(fs)) && (fs != [] ==> Concat(fs) != "")
    decreases |fs|
  {
    if fs != [] {
      var f := fs[|fs| - 1];
      assert Fragment(c, f);
      var e :| f <= c.enc(e);
      assert OneLine(c.enc(e));
      assert forall k :: 0 <= k < |f| ==> f[k] == c.enc(e)[k];
      ConcatOneLine(c, fs[..|fs| - 1]);
    }
  }

  lemma ConcatSnoc(fs: seq<string>, f: string)
    ensures Concat(fs + [f]) == Concat(fs) + f
  {
    assert (fs + [f])[..|fs|] == fs;
  }

  lemma {:induction false} SilentFile(c: Codec, ws: seq<Write>)
    requires AllPossible(c, ws) && Silent(ws)
    ensures File(c, ws) == "" && Readable(c, ws)
    ensures Faithful(c) ==> Whole(c, ws) == []
    decreases |ws|
  {
    if ws != [] {
      assert ws[0].landed == 0;
      SilentFile(c, ws[1..]);
      if Faithful(c) { assert c.enc(ws[0].e) != ""; }
    }
  }

  /** A line that has begun with a torn entry, or holds more than one, is never accepted. */
  lemma {:induction false} BrokenLineRejected(c: Codec, fs: seq<string>, ws: seq<Write>, mem: map<string, Entry>)
    requires Faithful(c) && AllPossible(c, ws) && Fragments(c, fs)
    requires |fs| >= 2 || (|fs| == 1 && c.dec(fs[0]) == None)
    ensures !Replay(c, Concat(fs) + File(c, ws), mem).Loaded?
    decreases |ws|
  {
    hide Replay, File, LineEnd, Fragment;
    ConcatOneLine(c, fs);
    var a := Concat(fs);
    SingleConcat(fs);
    assert c.dec(a) == None;
    if ws == [] {
      EmptyFile(c);
      assert a + "" == a;
      ReplayLast(c, a, mem);
    } else {
      var w, rest := ws[0], ws[1..];
      var f := AppendShape(c, a, ws);
      ConcatSnoc(fs, f);
      if w.landed == 0 {
        BrokenLineRejected(c, fs, rest, mem);
      } else {
        assert Fragments(c, fs + [f]);
        if w.landed <= |c.enc(w.e)| {
          BrokenLineRejected(c, fs + [f], rest, mem);
        } else {
          ConcatOneLine(c, fs + [f]);
          ReplayLine(c, a + f, File(c, rest), mem);
        }
      }
    }
  }

  lemma EmptyFile(c: Codec)
    ensures File(c, []) == ""
  {
  }

  lemma SingleConcat(fs: seq<string>)
    ensures |fs| == 1 ==> Concat(fs) == fs[0]
  {
    if |fs| == 1 { assert fs[..0] == []; }
  }

  /** An entry without its newline is accepted exactly if nothing follows it. */
  lemma {:induction false} LostNewline(c: Codec, e: Entry, ws: seq<Write>, mem: map<string, Entry>)
    requires Faithful(c) && AllPossible(c, ws)
    ensures Replay(c, c.enc(e) + File(c, ws), mem).Loaded? <==> Silent(ws) && |c.enc(e)| < MAX_LINE
    ensures Replay(c, c.enc(e) + File(c, ws), mem).Loaded? ==>
      Replay(c, c.enc(e) + File(c, ws), mem).mem == mem[KeyOf(e.id) := e]
    decreases |ws|
  {
    hide Replay, File, LineEnd, Fragment;
    var a := c.enc(e);
    assert OneLine(a) && a != "" && c.dec(a) == Some(e);
    if ws != [] { SilentCons(ws); }
    if Silent(ws) {
      SilentFile(c, ws);
      assert a + "" == a;
      ReplayLast(c, a, mem);
    } else {
      var f := AppendShape(c, a, ws);
      if ws[0].landed == 0 {
        LostNewline(c, e, ws[1..], mem);
      } else {
        GluedAppend(c, e, ws, mem);
      }
    }
  }

  lemma EntryIsFragment(c: Codec, e: Entry)
    requires Faithful(c)
    ensures Fragment(c, c.enc(e))
  {
    assert c.enc(e) != "" && c.enc(e) <= c.enc(e);
  }

  lemma GluedAppend(c: Codec, e: Entry, ws: seq<Write>, mem: map<string, Entry>)
    requires Faithful(c) && AllPossible(c, ws) && ws != [] && ws[0].landed > 0
    ensures !Replay(c, c.enc(e) + File(c, ws), mem).Loaded?
  {
    var a, rest := c.enc(e), ws[1..];
    EntryIsFragment(c, e);
    hide Replay, File, LineEnd, Fragment;
    var f := AppendShape(c, a, ws);
    var fs := [a] + [f];
    SingleConcat([a]);
    ConcatSnoc([a], f);
    assert Fragments(c, fs);
    if ws[0].landed <= |c.enc(ws[0].e)| {
      BrokenLineRejected(c, fs, rest, mem);
    } else {
      ConcatOneLine(c, fs);
      ReplayLine(c, a + f, File(c, rest), mem);
    }
  }

  /** Reopening after any history of whole, torn and failed appends: it succeeds exactly for a
      readable history, and then yields the last-wins fold of the entries that are there whole. */
  lemma {:induction false} ReplayIsExact(c: Codec, ws: seq<Write>, mem: map<string, Entry>)
    requires Faithful(c) && AllPossible(c, ws)
    ensures Replay(c, File(c, ws), mem).Loaded? <==> Readable(c, ws)
    ensures Readable(c, ws) ==> Replay(c, File(c, ws), mem) == Loaded(Fold(mem, Whole(c, ws)))
    decreases |ws|
  {
    hide Replay, File, LineEnd, Fragment;
    if ws == [] {
      EmptyFile(c);
      ReplayNothing(c, mem);
    } else {
      var w, rest := ws[0], ws[1..];
      FirstAppend(c, ws, mem);
      FoldCons(mem, w, Whole(c, rest));
      if w.landed == 0 {
        ReplayIsExact(c, rest, mem);
      } else if w.landed <= |c.enc(w.e)| {
        if Silent(rest) { SilentFile(c, rest); }
      } else {
        ReplayIsExact(c, rest, mem[KeyOf(w.e.id) := w.e]);
      }
    }
  }

  lemma FoldCons(mem: map<string, Entry>, w: Write, ws: seq<Write>)
    ensures Fold(mem, [w] + ws) == Fold(mem[KeyOf(w.e.id) := w.e], ws)
    ensures [] + ws == ws
  {
    assert ([w] + ws)[1..] == ws;
  }

  /** How the first append decides the replay. */
  lemma FirstAppend(c: Codec, ws: seq<Write>, mem: map<string, Entry>)
    requires Faithful(c) && AllPossible(c, ws) && ws != []
    ensures var w, a, rest, r := ws[0], c.enc(ws[0].e), ws[1..], Replay(c, File(c, ws), mem);
      && a != ""
      && (w.landed == 0 ==> r == Replay(c, File(c, rest), mem))
      && (0 < w.landed < |a| ==> !r.Loaded?)
      && (w.landed == |a| ==> (r.Loaded? <==> Silent(rest) && |a| < MAX_LINE))
      && (w.landed == |a| && r.Loaded? ==> r.mem == mem[KeyOf(w.e.id) := w.e])
      && (w.landed > |a| ==> if |a| >= MAX_LINE then r == TooLong else r == Replay(c, File(c, rest), mem[KeyOf(w.e.id) := w.e]))
  {
    var w, a, rest := ws[0], c.enc(ws[0].e), ws[1..];
    assert OneLine(a) && a != "" && c.dec(a) == Some(w.e);
    hide Replay, File, LineEnd, Fragment, Silent;
    var f := AppendShape(c, "", ws);
    assert "" + File(c, ws) == File(c, ws) && "" + File(c, rest) == File(c, rest) && "" + f == f;
    if 0 < w.landed < |a| {
      assert f < a;
      SingleConcat([f]);
      BrokenLineRejected(c, [f], rest, mem);
    } else if w.landed == |a| {
      assert f == a;
      LostNewline(c, w.e, rest, mem);
    } else if w.landed > |a| {
      ReplayLine(c, a, File(c, rest), mem);
    }
  }

  lemma ReplayNothing(c: Codec, mem: map<string, Entry>)
    ensures Replay(c, "", mem) == Loaded(mem)
  {
  }

  /** Everything Put acknowledged is among the whole entries, in order. */
  lemma {:induction false} AckedAreWhole(c: Codec, ws: seq<Write>)
    requires AllPossible(c, ws)
    ensures Acked(Whole(c, ws)) == Acked(ws)
    decreases |ws|
  {
    if ws != [] {
      assert Possible(c, ws[0]);
      AckedAreWhole(c, ws[1..]);
      var w, rest := Whole(c, ws), Whole(c, ws[1..]);
      if ws[0].landed >= |c.enc(ws[0].e)| { assert w[1..] == rest; } else { assert w == rest; }
    }
  }

  // ---------------------------------------------------------------- the map behind the string keys

  predicate SameLesson(p: LessonID, q: LessonID) { p.pr == q.pr && p.index == q.index }

  /** The last append for a lesson, or -1. */
  function LastFor(ws: seq<Write>, id: LessonID): int {
    if ws == [] then -1
    else if SameLesson(ws[|ws| - 1].e.id, id) then |ws| - 1
    else LastFor(ws[..|ws| - 1], id)
  }

  lemma {:induction false} FoldSnoc(mem: map<string, Entry>, ws: seq<Write>, w: Write)
    ensures Fold(mem, ws + [w]) == Fold(mem, ws)[KeyOf(w.e.id) := w.e]
    decreases |ws|
  {
    if ws == [] {
      assert ([] + [w])[1..] == [];
    } else {
      assert (ws + [w])[1..] == ws[1..] + [w];
      FoldSnoc(mem[KeyOf(ws[0].e.id) := ws[0].e], ws[1..], w);
    }
  }

  /** The string-keyed map is a map on (pull request, index): it holds the last entry put for a
      lesson, and nothing of any other. */
  lemma {:induction false} FoldIsLatest(ws: seq<Write>, id: LessonID)
    ensures var n := LastFor(ws, id);
      && n < |ws|
      && (KeyOf(id) in Fold(map[], ws) <==> n >= 0)
      && (n >= 0 ==> SameLesson(ws[n].e.id, id) && Fold(map[], ws)[KeyOf(id)] == ws[n].e)
    decreases |ws|
  {
    if ws != [] {
      var before, w := ws[..|ws| - 1], ws[|ws| - 1];
      assert ws == before + [w];
      FoldSnoc(map[], before, w);
      FoldIsLatest(before, id);
      NamesAreInjective(w.e.id, id);
    }
  }
}
