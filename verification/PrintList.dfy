/** PRINT lists: the printed items and separators, and the reader that splits them at depth zero. */
module PrintList {
  import opened Ir
  import opened Results
  import opened Text
  import opened TextScan
  import opened TextIr
  import opened TextRoundTrip

  function SepText(sep: PrintSep): string {
    match sep
    case Semicolon => " ; "
    case Comma => " , "
  }

  predicate IsSep(c: char) {
    c == ';' || c == ','
  }

  function SepOf(c: char): PrintSep {
    if c == ';' then Semicolon else Comma
  }

  /** Items after the first, each behind its separator; a surplus on either side is dropped. */
  function EmitRest(p: TextIrEmitter, items: seq<IrExpr>, seps: seq<PrintSep>): string {
    if items == [] || seps == [] then []
    else SepText(seps[0]) + p.EmitExpr(items[0]) + EmitRest(p, items[1..], seps[1..])
  }

  function EmitList(p: TextIrEmitter, items: seq<IrExpr>, seps: seq<PrintSep>): string
    requires items != []
  {
    p.EmitExpr(items[0]) + EmitRest(p, items[1..], seps)
  }

  function NextDepth(c: char, d: int): int {
    if c == '(' then d + 1 else if c == ')' then d - 1 else d
  }

  /** The splitter counts parentheses without looking at quotes. */
  function RawDepth(w: string, d: int): int {
    if w == [] then d
    else RawDepth(w[1..], NextDepth(w[0], d))
  }

  /** The raw depth is the number of opening parentheses less that of closing ones; nothing else counts. */
  lemma {:induction false} RawDepthCounts(w: string, d: int)
    ensures RawDepth(w, d) == d + multiset(w)['('] - multiset(w)[')']
  {
    if w != [] {
      RawDepthCounts(w[1..], NextDepth(w[0], d));
      assert w == [w[0]] + w[1..];
    }
  }

  type Split = (seq<IrExpr>, seq<PrintSep>)

  function AddPiece(e: Result<IrExpr>, sep: PrintSep, more: Result<Split>): Result<Split> {
    if e.Err? || more.Err? then Err else Ok(([e.value] + more.value.0, [sep] + more.value.1))
  }

  /** The split of `piece + s`, where `piece` is the text since the last separator and `d` the raw depth. */
  function SplitFrom(rd: TextIrReader, piece: string, s: string, d: int): Result<Split>
    decreases s
  {
    if s == [] then
      var e :- rd.ParseExpr(Trim(piece));
      Ok(([e], []))
    else if IsSep(s[0]) && d == 0 then
      AddPiece(rd.ParseExpr(Trim(piece)), SepOf(s[0]), SplitFrom(rd, "", s[1..], 0))
    else SplitFrom(rd, piece + [s[0]], s[1..], NextDepth(s[0], d))
  }

  function ParsePrintItems(rd: TextIrReader, s: string): Result<Split> {
    SplitFrom(rd, "", s, 0)
  }

  /** The byte loop of the reader, with its depth and start cursors. */
  method ParsePrintItemsLoop(rd: TextIrReader, rest: string) returns (r: Result<Split>)
    ensures r == ParsePrintItems(rd, rest)
  {
    hide TextIrReader.ParseExpr, Trim;
    var items, separators, depth, start := [], [], 0, 0;
    assert rest[0..0] == [] && rest[0..] == rest;
    JoinNothing(SplitFrom(rd, "", rest, 0));
    for i := 0 to |rest|
      invariant 0 <= start <= i
      invariant ParsePrintItems(rd, rest) == Join(items, separators, SplitFrom(rd, rest[start..i], rest[i..], depth))
    {
      assert rest[i..][1..] == rest[i + 1..] && rest[start..i] + [rest[i]] == rest[start..i + 1];
      var c := rest[i];
      if c == '(' {
        depth := depth + 1;
      } else if c == ')' {
        depth := depth - 1;
      } else if IsSep(c) && depth == 0 {
        var e := rd.ParseExpr(Trim(rest[start..i]));
        if e.Err? {
          return Err;
        }
        JoinAdd(items, separators, e.value, SepOf(c), SplitFrom(rd, "", rest[i + 1..], 0));
        items := items + [e.value];
        separators := separators + [SepOf(c)];
        start := i + 1;
        assert rest[start..start] == "";
      }
    }
    assert rest[|rest|..] == [] && rest[start..|rest|] == rest[start..];
    var e := rd.ParseExpr(Trim(rest[start..]));
    if e.Err? {
      return Err;
    }
    assert separators + [] == separators;
    r := Ok((items + [e.value], separators));
  }

  ghost function Join(items: seq<IrExpr>, seps: seq<PrintSep>, more: Result<Split>): Result<Split> {
    if more.Err? then Err else Ok((items + more.value.0, seps + more.value.1))
  }

  lemma JoinNothing(more: Result<Split>)
    ensures Join([], [], more) == more
  {
    if more.Ok? {
      assert [] + more.value.0 == more.value.0 && [] + more.value.1 == more.value.1;
    }
  }

  lemma JoinAdd(items: seq<IrExpr>, seps: seq<PrintSep>, e: IrExpr, sep: PrintSep, more: Result<Split>)
    ensures Join(items, seps, AddPiece(Ok(e), sep, more)) == Join(items + [e], seps + [sep], more)
  {
    if more.Ok? {
      assert items + ([e] + more.value.0) == items + [e] + more.value.0;
      assert seps + ([sep] + more.value.1) == seps + [sep] + more.value.1;
    }
  }

  // ----- When a list can be split -----

  /** Position of the first separator met at raw depth zero. */
  function FirstSplit(w: string, d: int): (r: Option<nat>)
    ensures r.Some? ==> r.value < |w| && IsSep(w[r.value])
  {
    if w == [] then None
    else if IsSep(w[0]) && d == 0 then Some(0)
    else Shift(1, FirstSplit(w[1..], NextDepth(w[0], d)))
  }

  /** No item shows a separator at raw depth zero, and every item but the last ends at raw depth zero. */
  predicate Splittable(p: TextIrEmitter, items: seq<IrExpr>) {
    items != [] ==>
      && FirstSplit(p.EmitExpr(items[0]), 0) == None
      && (|items| > 1 ==> RawDepth(p.EmitExpr(items[0]), 0) == 0)
      && Splittable(p, items[1..])
  }

  lemma {:induction false} SkipWhole(rd: TextIrReader, piece: string, w: string, t: string, d: int)
    requires FirstSplit(w, d) == None
    ensures SplitFrom(rd, piece, w + t, d) == SplitFrom(rd, piece + w, t, RawDepth(w, d))
    decreases w
  {
    hide TextIrReader.ParseExpr, Trim;
    if w == [] {
      assert w + t == t && piece + w == piece;
    } else {
      assert (w + t)[1..] == w[1..] + t;
      assert piece + [w[0]] + w[1..] == piece + w;
      SkipWhole(rd, piece + [w[0]], w[1..], t, NextDepth(w[0], d));
    }
  }

  /** A separator at raw depth zero inside an item cuts the piece there. */
  lemma {:induction false} CutPiece(rd: TextIrReader, piece: string, w: string, t: string, d: int)
    requires FirstSplit(w, d).Some?
    requires rd.ParseExpr(Trim(piece + w[..FirstSplit(w, d).value])) == Err
    ensures SplitFrom(rd, piece, w + t, d) == Err
    decreases w
  {
    hide TextIrReader.ParseExpr, Trim;
    assert (w + t)[1..] == w[1..] + t;
    if !(IsSep(w[0]) && d == 0) {
      var d' := NextDepth(w[0], d);
      var k := FirstSplit(w[1..], d').value;
      assert piece + [w[0]] + w[1..][..k] == piece + w[..k + 1];
      CutPiece(rd, piece + [w[0]], w[1..], t, d');
    } else {
      assert piece + w[..0] == piece;
    }
  }

  lemma {:induction false} TrimEndCut(s: string)
    ensures exists n: nat :: n <= |s| && TrimEnd(s) == s[..n]
  {
    if s != [] && IsWhite(s[|s| - 1]) {
      TrimEndCut(s[..|s| - 1]);
      var n: nat :| n <= |s| - 1 && TrimEnd(s[..|s| - 1]) == s[..|s| - 1][..n];
      assert s[..|s| - 1][..n] == s[..n];
    } else {
      assert s == s[..|s|];
    }
  }

  /** A printed expression cut short is rejected, with or without white space in front. */
  lemma CutRejected(p: TextIrEmitter, rd: TextIrReader, e: IrExpr, lead: string, k: nat)
    requires LexOk(e) && k < |p.EmitExpr(e)| && (lead == "" || lead == " ")
    ensures rd.ParseExpr(Trim(lead + p.EmitExpr(e)[..k])) == Err
  {
    hide TextIrReader.ParseSubExpr, TextIrEmitter.EmitExpr;
    var w := p.EmitExpr(e);
    EmitEnds(p, e);
    if k == 0 {
      assert lead + w[..k] == lead;
      assert TrimStart(lead) == "" by {
        assert lead == " " ==> lead[1..] == "";
      }
      PrefixRejected(p, rd, e, 0);
      assert w[..0] == "";
    } else {
      var cut := w[..k];
      assert cut[0] == w[0];
      TrimLeadingSpace(cut);
      assert "" + cut == cut;
      TrimEndCut(cut);
      var n: nat :| n <= |cut| && TrimEnd(cut) == cut[..n];
      assert cut[..n] == w[..n];
      PrefixRejected(p, rd, e, n);
    }
  }

  lemma PrefixRejected(p: TextIrEmitter, rd: TextIrReader, e: IrExpr, k: nat)
    requires LexOk(e) && k < |p.EmitExpr(e)|
    ensures rd.ParseSubExpr(p.EmitExpr(e)[..k]) == Err
  {
    hide TextIrReader.ParseArgs, TextIrReader.ParseContent, Head, TextIrEmitter.Body, Trim, Neutral;
    var head, body := Head(e.kind), p.Body(e);
    var w := p.EmitExpr(e);
    HeadFacts(e);
    BodyNeutral(p, e);
    var s := w[..k];
    assert k > 0 ==> s[0] == head[0] && TrimStart(s) == s;
    if k <= |head| {
      assert s == head[..k];
      assert '(' !in s;
    } else {
      var j := k - |head| - 1;
      assert w == head + ['('] + (body + ")");
      assert s == head + ['('] + body[..j];
      FindAfter(head, '(', body[..j]);
      assert s[|head| + 1..] == body[..j];
      ExtractCut(body, j);
    }
  }

  /** Once a separator has been passed over, the piece it ends up in is rejected. */
  lemma {:induction false} PassedOver(p: TextIrEmitter, rd: TextIrReader, e: IrExpr, lead: string, x: string,
                                      t: string, d: int)
    requires LexOk(e) && (lead == "" || lead == " ")
    requires |x| >= 2 && x[0] == ' ' && IsSep(x[1])
    ensures SplitFrom(rd, lead + p.EmitExpr(e) + x, t, d) == Err
    decreases t
  {
    hide TextIrReader.ParseExpr, TextIrEmitter.EmitExpr, Trim;
    var piece := lead + p.EmitExpr(e) + x;
    TrailingRejected(p, rd, e, lead, x);
    if t != [] && !(IsSep(t[0]) && d == 0) {
      assert piece + [t[0]] == lead + p.EmitExpr(e) + (x + [t[0]]);
      PassedOver(p, rd, e, lead, x + [t[0]], t[1..], NextDepth(t[0], d));
    }
  }

  lemma TrailingRejected(p: TextIrEmitter, rd: TextIrReader, e: IrExpr, lead: string, x: string)
    requires LexOk(e) && (lead == "" || lead == " ")
    requires |x| >= 2 && x[0] == ' ' && IsSep(x[1])
    ensures rd.ParseExpr(Trim(lead + p.EmitExpr(e) + x)) == Err
  {
    hide TextIrReader.ParseSubExpr, TextIrEmitter.EmitExpr, ReadBack, TrimEnd, TrimStart;
    var w := p.EmitExpr(e);
    EmitEnds(p, e);
    var y := TrimTail(lead, w, x);
    ReadExpr(p, rd, e, y);
    TrimKeeps(y, 1);
  }

  lemma TrimTail(lead: string, w: string, x: string) returns (y: string)
    requires w != [] && !IsWhite(w[0]) && (lead == "" || lead == " ")
    requires |x| >= 2 && x[0] == ' ' && IsSep(x[1])
    ensures Trim(lead + w + x) == w + y && |y| >= 2 && !IsWhite(y[1])
  {
    hide TrimEnd;
    var s := w + x;
    assert lead + w + x == lead + s && "" + s == s;
    assert s[0] == w[0];
    TrimLeadingSpace(s);
    assert s[|w| + 1] == x[1];
    KeepsSolid(s, |w| + 1);
    TrimEndCut(s);
    var n: nat :| n <= |s| && TrimEnd(s) == s[..n];
    y := x[..n - |w|];
    assert s[..n] == w + y;
  }

  lemma {:induction false} KeepsSolid(s: string, i: nat)
    requires i < |s| && !IsWhite(s[i])
    ensures |TrimEnd(s)| > i
  {
    if IsWhite(s[|s| - 1]) {
      KeepsSolid(s[..|s| - 1], i);
    }
  }

  lemma {:induction false} TrimKeeps(s: string, i: nat)
    requires i < |s| && !IsWhite(s[i])
    ensures Trim(s) != []
  {
    if IsWhite(s[0]) {
      TrimKeeps(s[1..], i - 1);
    } else {
      KeepsSolid(s, i);
    }
  }

  // ----- The round trip for lists -----

  function Pairs(items: Result<seq<IrExpr>>, seps: seq<PrintSep>): Result<Split> {
    if items.Err? then Err else Ok((items.value, seps))
  }

  /** Reading from one item on, with the white space the previous separator left in front. */
  lemma {:induction false} ReadItems(p: TextIrEmitter, rd: TextIrReader, lead: string, items: seq<IrExpr>,
                                     seps: seq<PrintSep>)
    requires items != [] && LexOkAll(items) && |seps| == |items| - 1 && (lead == "" || lead == " ")
    ensures SplitFrom(rd, lead, EmitList(p, items, seps), 0)
         == if Splittable(p, items) then Pairs(ReadBackAll(p, rd, items), seps) else Err
    decreases items
  {
    hide TextIrReader.ParseExpr, TextIrEmitter.EmitExpr, Trim, ReadBackAll, ReadBack, HasGiantSize, SomeGiantSize;
    var e, w := items[0], p.EmitExpr(items[0]);
    var more := EmitRest(p, items[1..], seps);
    ReadItem(p, rd, e, lead);
    assert items == [e] + items[1..];
    ReadBackCons(p, rd, e, items[1..]);
    ReadBackNone(p, rd);
    if FirstSplit(w, 0).Some? {
      CutRejected(p, rd, e, lead, FirstSplit(w, 0).value);
      CutPiece(rd, lead, w, more, 0);
    } else {
      SkipWhole(rd, lead, w, more, 0);
      if |items| > 1 {
        ReadItems(p, rd, " ", items[1..], seps[1..]);
        var next := EmitList(p, items[1..], seps[1..]);
        assert more == SepText(seps[0]) + next;
        SeparatorStep(p, rd, e, lead, seps[0], next, RawDepth(w, 0));
        assert seps == [seps[0]] + seps[1..];
      } else {
        assert seps == [] && items[1..] == [] && more == [];
        PrependEmpty(Canon(rd, Reread(p.printable, e)));
      }
    }
  }

  lemma ReadItem(p: TextIrEmitter, rd: TextIrReader, e: IrExpr, lead: string)
    requires LexOk(e) && (lead == "" || lead == " ")
    ensures rd.ParseExpr(Trim(lead + p.EmitExpr(e))) == ReadBack(p, rd, e)
    ensures rd.ParseExpr(Trim(lead + p.EmitExpr(e) + " ")) == ReadBack(p, rd, e)
    ensures ReadBack(p, rd, e) == if HasGiantSize(e) then Err else Ok(Canon(rd, Reread(p.printable, e)))
  {
    hide TextIrReader.ParseExpr, TextIrEmitter.EmitExpr, Trim, LexOk;
    EmitEnds(p, e);
    TrimAround(lead, p.EmitExpr(e));
    ParseEmitted(p, rd, e);
  }

  lemma TrimAround(lead: string, w: string)
    requires w != "" && !IsWhite(w[0]) && !IsWhite(w[|w| - 1]) && (lead == "" || lead == " ")
    ensures Trim(lead + w) == w && Trim(lead + w + " ") == w
  {
    TrimTrimmed(w);
    TrimLeadingSpace(w);
    assert "" + w == w;
    TrimTrailingSpace(w);
    assert lead + w + " " == lead + (w + " ") && "" + (w + " ") == w + " ";
    assert (w + " ")[0] == w[0];
    TrimLeadingSpace(w + " ");
  }

  lemma ReadBackNone(p: TextIrEmitter, rd: TextIrReader)
    ensures ReadBackAll(p, rd, []) == Ok([])
  {
  }

  /** After an item: a separator is a split at raw depth zero, and passed over at any other depth. */
  lemma SeparatorStep(p: TextIrEmitter, rd: TextIrReader, e: IrExpr, lead: string, sep: PrintSep, next: string, d: int)
    requires LexOk(e) && (lead == "" || lead == " ")
    ensures SplitFrom(rd, lead + p.EmitExpr(e), SepText(sep) + next, d)
         == if d != 0 then Err
            else AddPiece(rd.ParseExpr(Trim(lead + p.EmitExpr(e) + " ")), sep, SplitFrom(rd, " ", next, 0))
  {
    hide TextIrReader.ParseExpr, TextIrEmitter.EmitExpr, Trim;
    var piece := lead + p.EmitExpr(e);
    var c := if sep == Semicolon then ';' else ',';
    var s := SepText(sep) + next;
    assert s[0] == ' ' && s[1..] == [c, ' '] + next;
    assert ([c, ' '] + next)[1..] == [' '] + next && ([' '] + next)[1..] == next;
    assert SplitFrom(rd, piece, s, d) == SplitFrom(rd, piece + " ", [c, ' '] + next, d);
    if d == 0 {
      assert SplitFrom(rd, "", [' '] + next, 0) == SplitFrom(rd, " ", next, 0) by {
        assert "" + [' '] == " ";
      }
    } else {
      assert SplitFrom(rd, piece + " ", [c, ' '] + next, d) == SplitFrom(rd, piece + " " + [c], [' '] + next, d);
      assert piece + " " + [c] == piece + [' ', c];
      PassedOver(p, rd, e, lead, [' ', c], [' '] + next, d);
    }
  }

  /** A printed list gives back its items and separators exactly when it is splittable; otherwise
      reading it is an error. */
  lemma PrintRoundTrip(p: TextIrEmitter, rd: TextIrReader, items: seq<IrExpr>, seps: seq<PrintSep>)
    requires items != [] && LexOkAll(items) && |seps| == |items| - 1
    ensures ParsePrintItems(rd, EmitList(p, items, seps))
         == if Splittable(p, items) then Pairs(ReadBackAll(p, rd, items), seps) else Err
  {
    ReadItems(p, rd, "", items, seps);
  }

  lemma {:induction false} InertDepth(w: string, t: string, d: int)
    requires Inert(w)
    ensures RawDepth(w + t, d) == RawDepth(t, d)
  {
    if w == [] {
      assert w + t == t;
    } else {
      assert (w + t)[1..] == w[1..] + t;
      InertDepth(w[1..], t, d);
    }
  }

  lemma RawStep(c: char, t: string, d: int)
    ensures RawDepth([c] + t, d) == RawDepth(t, NextDepth(c, d))
  {
    assert ([c] + t)[1..] == t;
  }

  /** An item holding one unmatched parenthesis in a string spoils the list: PRINT "(" ; "" is not read back. */
  lemma UnmatchedParenthesis(p: TextIrEmitter, rd: TextIrReader)
    requires '(' in p.printable
    ensures var bad := IrExpr(StringLiteral("("), String);
            ParsePrintItems(rd, EmitList(p, [bad, bad], [Semicolon])) == Err
  {
    var bad := IrExpr(StringLiteral("("), String);
    var w := p.EmitExpr(bad);
    assert DebugChars(p.printable, "(") == "(";
    assert w == "string(\"(\")";
    assert w == "string" + "(\"(\")";
    InertDepth("string", "(\"(\")", 0);
    RawStep('(', "\"(\")", 0);
    RawStep('"', "(\")", 1);
    RawStep('(', "\")", 1);
    RawStep('"', ")", 2);
    RawStep(')', "", 2);
    PrintRoundTrip(p, rd, [bad, bad], [Semicolon]);
    assert [bad, bad][0] == bad;
  }
}
