/** What a ledger's histories guarantee: acknowledged entries survive, a torn line closes the ledger,
    and when the cursor can move back. */
module LedgerLaws {
  import opened Text
  import opened Identity
  import opened LedgerLog
  import opened Ledger

  // ---------------------------------------------------------------- which histories can be reopened

  predicate WholeOrNothing(c: Codec, w: Write) {
    w.landed > 0 ==> |c.enc(w.e)| <= w.landed && |c.enc(w.e)| < 4_194_304
  }

  /** The entry is there whole, its newline is not. */
  predicate LacksNewline(c: Codec, w: Write) { w.landed == |c.enc(w.e)| }

  /** Every append left nothing or a whole entry below the line limit, and an append that lost its
      newline is followed by nothing at all. */
  ghost predicate Sound(c: Codec, ws: seq<Write>) {
    && (forall k :: 0 <= k < |ws| ==> WholeOrNothing(c, ws[k]))
    && (forall k, m :: 0 <= k < m < |ws| && LacksNewline(c, ws[k]) ==> ws[m].landed == 0)
  }

  lemma SoundCons(c: Codec, ws: seq<Write>)
    requires ws != []
    ensures Sound(c, ws) <==>
      WholeOrNothing(c, ws[0]) && (LacksNewline(c, ws[0]) ==> Silent(ws[1..])) && Sound(c, ws[1..])
  {
    hide WholeOrNothing, LacksNewline;
    var rest := ws[1..];
    assert forall k :: 0 < k < |ws| ==> ws[k] == rest[k - 1];
    assert forall k :: 0 <= k < |rest| ==> rest[k] == ws[k + 1];
  }

  /** These are exactly the histories that can be reopened. */
  lemma {:induction false} ReadableMeans(c: Codec, ws: seq<Write>)
    requires Faithful(c)
    ensures Readable(c, ws) <==> Sound(c, ws)
    decreases |ws|
  {
    if ws != [] {
      ReadableMeans(c, ws[1..]);
      assert c.enc(ws[0].e) != "";
      hide Faithful, Sound, Silent;
      SoundCons(c, ws);
      if Silent(ws[1..]) { SilentReadable(c, ws[1..]); }
    }
  }

  lemma SilentReadable(c: Codec, ws: seq<Write>)
    requires Faithful(c) && Silent(ws)
    ensures Readable(c, ws)
    decreases |ws|
  {
    if ws != [] { assert c.enc(ws[0].e) != ""; SilentReadable(c, ws[1..]); }
  }

  // ---------------------------------------------------------------- acknowledged puts survive

  lemma {:induction false} WholeEntry(c: Codec, ws: seq<Write>, mem: map<string, Entry>, key: string)
    ensures var after := Fold(mem, Whole(c, ws));
      || (key in after && exists m: nat :: m < |ws| && KeyOf(ws[m].e.id) == key && after[key] == ws[m].e)
      || ((key in after <==> key in mem) && (key in mem ==> after[key] == mem[key]))
    decreases |ws|
  {
    if ws != [] {
      var w, rest := ws[0], ws[1..];
      if w.landed >= |c.enc(w.e)| {
        FoldCons(mem, w, Whole(c, rest));
        WholeEntry(c, rest, mem[KeyOf(w.e.id) := w.e], key);
      } else {
        FoldCons(mem, w, Whole(c, rest));
        WholeEntry(c, rest, mem, key);
      }
      assert forall m :: 0 <= m < |rest| ==> rest[m] == ws[m + 1];
    }
  }

  /** Whatever happens after an acknowledged put, if the ledger can be opened at all then it holds,
      for that lesson, the entry of that put or of a later one for the same lesson. */
  lemma {:induction false} AckedSurvives(c: Codec, ws: seq<Write>, mem: map<string, Entry>, k: nat)
    requires AllPossible(c, ws) && k < |ws| && ws[k].acked
    ensures var after := Fold(mem, Whole(c, ws));
      var key := KeyOf(ws[k].e.id);
      && key in after
      && exists m: nat :: k <= m < |ws| && SameLesson(ws[m].e.id, ws[k].e.id) && after[key] == ws[m].e
    decreases |ws|
  {
    hide Fold, Whole, KeyOf;
    if k > 0 {
      var rest, mem1 := ws[1..], mem;
      assert rest[k - 1] == ws[k];
      if ws[0].landed >= |c.enc(ws[0].e)| { mem1 := mem[KeyOf(ws[0].e.id) := ws[0].e]; }
      FoldWhole(c, ws, mem);
      AckedSurvives(c, rest, mem1, k - 1);
      var m: nat :| k - 1 <= m < |rest| && SameLesson(rest[m].e.id, ws[k].e.id)
                 && Fold(mem1, Whole(c, rest))[KeyOf(ws[k].e.id)] == rest[m].e;
      assert ws[m + 1] == rest[m];
    } else {
      FirstSurvives(c, ws, mem);
    }
  }

  lemma FoldWhole(c: Codec, ws: seq<Write>, mem: map<string, Entry>)
    requires ws != []
    ensures Fold(mem, Whole(c, ws))
         == Fold(if ws[0].landed >= |c.enc(ws[0].e)| then mem[KeyOf(ws[0].e.id) := ws[0].e] else mem, Whole(c, ws[1..]))
  {
    FoldCons(mem, ws[0], Whole(c, ws[1..]));
  }

  lemma FirstSurvives(c: Codec, ws: seq<Write>, mem: map<string, Entry>)
    requires AllPossible(c, ws) && ws != [] && ws[0].acked
    ensures var after, key := Fold(mem, Whole(c, ws)), KeyOf(ws[0].e.id);
      && key in after
      && exists m: nat :: m < |ws| && SameLesson(ws[m].e.id, ws[0].e.id) && after[key] == ws[m].e
  {
    var key, rest := KeyOf(ws[0].e.id), ws[1..];
    assert Possible(c, ws[0]);
    hide Fold, Whole, KeyOf, Possible;
    FoldWhole(c, ws, mem);
    WholeEntry(c, rest, mem[key := ws[0].e], key);
    var after := Fold(mem, Whole(c, ws));
    if m: nat :| m < |rest| && KeyOf(rest[m].e.id) == key && after[key] == rest[m].e {
      NamesAreInjective(rest[m].e.id, ws[0].e.id);
      assert ws[m + 1] == rest[m];
    } else {
      assert after[key] == ws[0].e;
    }
  }

  // ---------------------------------------------------------------- memory and file

  lemma {:induction false} WholeSum(c: Codec, a: seq<Write>, b: seq<Write>)
    ensures Whole(c, a + b) == Whole(c, a) + Whole(c, b)
    decreases |a|
  {
    if a == [] {
      assert a + b == b;
    } else {
      assert (a + b)[1..] == a[1..] + b;
      WholeSum(c, a[1..], b);
    }
  }

  lemma ReplaySeen(c: Codec, before: seq<Write>, own: seq<Write>)
    requires Faithful(c) && AllPossible(c, before + own) && Readable(c, before + own)
    requires forall w :: w in Whole(c, own) ==> w.acked
    ensures Replay(c, File(c, before + own), map[]) == Loaded(Fold(map[], Whole(c, before) + Acked(own)))
  {
    forall k | 0 <= k < |own| ensures Possible(c, own[k]) { assert (before + own)[|before| + k] == own[k]; }
    ReplayIsExact(c, before + own, map[]);
    WholeSum(c, before, own);
    AckedAreWhole(c, own);
    AllAcked(Whole(c, own));
  }

  /** An instance's memory is what reopening the file yields, as long as nobody else wrote and every
      entry of its own that landed whole was also acknowledged. */
  lemma ReopenAgrees(l: JSONL)
    requires l.Valid() && l.Alone() && Faithful(l.codec) && Readable(l.codec, l.disk.writes)
    requires forall w :: w in Whole(l.codec, l.own) ==> w.acked
    ensures Replay(l.codec, l.disk.bytes, map[]) == Loaded(l.mem)
  {
    ReplaySeen(l.codec, l.disk.writes[..l.atOpen], l.own);
  }

  lemma {:induction false} AllAcked(ws: seq<Write>)
    requires forall w :: w in ws ==> w.acked
    ensures Acked(ws) == ws
  {
    if ws != [] { AllAcked(ws[1..]); }
  }

  // ---------------------------------------------------------------- the cursor

  lemma CursorIsUnique(mem: map<string, Entry>, s: int, t: int)
    requires IsCursor(mem, s) && IsCursor(mem, t)
    ensures s == t
  {
  }

  /** An upsert can move the cursor back, and does so exactly if it gives an earlier time to the only
      lesson at the high-water mark. */
  lemma CursorMovesBackIff(mem: map<string, Entry>, e: Entry, t: int, t': int)
    requires IsCursor(mem, t) && IsCursor(mem[KeyOf(e.id) := e], t')
    ensures t' < t <==> t > 0 && e.updatedAt < t && forall k :: k in mem && mem[k].updatedAt == t ==> k == KeyOf(e.id)
  {
    var mem' := mem[KeyOf(e.id) := e];
    assert forall k :: k in mem && k != KeyOf(e.id) ==> k in mem' && mem'[k] == mem[k];
    assert mem'[KeyOf(e.id)] == e;
  }

  // ---------------------------------------------------------------- files that were edited

  /** Empty lines do not matter, nor does a carriage return at a line's end. */
  lemma EditedLines(c: Codec, e: Entry, rest: string, mem: map<string, Entry>)
    requires Faithful(c) && |c.enc(e)| < 4_194_303
    ensures Replay(c, "" + "\n" + rest, mem) == Replay(c, rest, mem)
    ensures Replay(c, "\r" + "\n" + rest, mem) == Replay(c, rest, mem)
    ensures Replay(c, c.enc(e) + "\n" + rest, mem) == Replay(c, rest, mem[KeyOf(e.id) := e])
    ensures Replay(c, c.enc(e) + "\r" + "\n" + rest, mem) == Replay(c, rest, mem[KeyOf(e.id) := e])
  {
    ReadEdited(c, e, mem);
    assert OneLine(c.enc(e));
    hide Faithful, KeyOf, Read, Replay;
    LineThen(c, "", rest, mem);
    LineThen(c, "\r", rest, mem);
    LineThen(c, c.enc(e), rest, mem);
    LineThen(c, c.enc(e) + "\r", rest, mem);
  }

  lemma ReadEdited(c: Codec, e: Entry, mem: map<string, Entry>)
    requires Faithful(c) && |c.enc(e)| < 4_194_303
    ensures Read(c, "", mem) == Loaded(mem) == Read(c, "\r", mem)
    ensures Read(c, c.enc(e), mem) == Loaded(mem[KeyOf(e.id) := e]) == Read(c, c.enc(e) + "\r", mem)
  {
    var raw := c.enc(e);
    assert OneLine(raw) && raw != "" && c.dec(raw) == Some(e);
    hide Faithful, KeyOf;
    assert DropCR(raw) == raw;
    assert (raw + "\r")[..|raw|] == raw;
  }

  lemma LineThen(c: Codec, line: string, rest: string, mem: map<string, Entry>)
    requires |line| < 4_194_304 && forall k :: 0 <= k < |line| ==> line[k] != '\n'
    ensures var s, r := line + "\n" + rest, Read(c, line, mem);
      Replay(c, s, mem) == if r.Loaded? then Replay(c, rest, r.mem) else r
  {
    var s := line + "\n" + rest;
    hide Read, Replay;
    UnfoldReplay(c, s, mem);
    var i := LineEnd(s, 0);
    assert s[|line|] == '\n' && forall k :: 0 <= k < |line| ==> s[k] == line[k];
    assert i == |line|;
    assert s[..i] == line && s[i + 1..] == rest;
  }
}
