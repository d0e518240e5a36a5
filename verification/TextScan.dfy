/** The quote-aware scanning half of the text-IR reader: matching parentheses and quoted strings. */
module TextScan {
  import opened Ir
  import opened Results
  import opened Text

  /** Where the scanner stands: outside quotes, inside quotes, or just after a backslash inside quotes. */
  datatype Scan = Plain(depth: nat) | Quoted(depth: nat) | Escaped(depth: nat)

  function Step(st: Scan, c: char): Scan {
    match st
    case Plain(d) =>
      if c == '(' then Plain(d + 1)
      else if c == ')' && d > 0 then Plain(d - 1)
      else if c == '"' then Quoted(d)
      else st
    case Quoted(d) =>
      if c == '"' then Plain(d) else if c == '\\' then Escaped(d) else st
    case Escaped(d) => Quoted(d)
  }

  predicate Closes(st: Scan, c: char) {
    st == Plain(1) && c == ')'
  }

  function Shift(n: nat, r: Option<nat>): Option<nat> {
    if r.None? then None else Some(n + r.value)
  }

  /** Number of characters before the parenthesis that closes the group the scanner is in. */
  function CloseAt(s: string, st: Scan): (r: Option<nat>)
    ensures r.Some? ==> r.value < |s| && s[r.value] == ')'
  {
    if s == [] then None
    else if Closes(st, s[0]) then Some(0)
    else Shift(1, CloseAt(s[1..], Step(st, s[0])))
  }

  /** Content of the group that starts at `s`, and the text after its closing parenthesis. */
  function ExtractParens(s: string): (r: Result<(string, string)>)
    ensures r.Ok? ==> s == r.value.0 + ")" + r.value.1
  {
    match CloseAt(s, Plain(1))
    case None => Err
    case Some(n) => Ok((s[..n], s[n + 1..]))
  }

  /** State after `w`, or None when the group closes inside `w`. */
  function Run(w: string, st: Scan): Option<Scan> {
    if w == [] then Some(st)
    else if Closes(st, w[0]) then None
    else Run(w[1..], Step(st, w[0]))
  }

  /** Texts the scanner passes over, at any depth, without closing a group or opening a quote for good. */
  ghost predicate Neutral(w: string) {
    forall d: nat :: d > 0 ==> Run(w, Plain(d)) == Some(Plain(d))
  }

  lemma {:induction false} RunConcat(a: string, b: string, st: Scan)
    ensures Run(a + b, st) == match Run(a, st) case None => None case Some(m) => Run(b, m)
  {
    if a == [] {
      assert a + b == b;
    } else {
      assert (a + b)[1..] == a[1..] + b;
      if !Closes(st, a[0]) {
        RunConcat(a[1..], b, Step(st, a[0]));
      }
    }
  }

  lemma {:induction false} CloseAfter(w: string, t: string, st: Scan)
    requires Run(w, st).Some?
    ensures CloseAt(w + t, st) == Shift(|w|, CloseAt(t, Run(w, st).value))
  {
    if w == [] {
      assert w + t == t;
    } else {
      assert (w + t)[1..] == w[1..] + t;
      CloseAfter(w[1..], t, Step(st, w[0]));
    }
  }

  /** The parenthesis after a neutral text is the one that closes the group. */
  lemma ExtractNeutral(w: string, rest: string)
    requires Neutral(w)
    ensures ExtractParens(w + ")" + rest) == Ok((w, rest))
  {
    assert Run(w, Plain(1)) == Some(Plain(1));
    CloseAfter(w, ")" + rest, Plain(1));
    assert w + ")" + rest == w + (")" + rest);
  }

  /** A text cut off before the closing parenthesis is never accepted. */
  lemma ExtractCut(w: string, k: nat)
    requires Neutral(w) && k <= |w|
    ensures ExtractParens(w[..k]) == Err
  {
    assert Run(w, Plain(1)) == Some(Plain(1));
    assert w == w[..k] + w[k..];
    RunConcat(w[..k], w[k..], Plain(1));
    assert w[..k] + [] == w[..k];
    CloseAfter(w[..k], [], Plain(1));
  }

  lemma NeutralConcat(a: string, b: string)
    requires Neutral(a) && Neutral(b)
    ensures Neutral(a + b)
  {
    forall d: nat | d > 0 ensures Run(a + b, Plain(d)) == Some(Plain(d)) {
      RunConcat(a, b, Plain(d));
    }
  }

  /** No character the scanner reacts to. */
  predicate Inert(w: string) {
    forall i :: 0 <= i < |w| ==> w[i] != '(' && w[i] != ')' && w[i] != '"'
  }

  lemma {:induction false} InertRun(w: string, d: nat)
    requires Inert(w)
    ensures Run(w, Plain(d)) == Some(Plain(d))
  {
    if w != [] {
      InertRun(w[1..], d);
    }
  }

  lemma InertNeutral(w: string)
    requires Inert(w)
    ensures Neutral(w)
  {
    forall d: nat | d > 0 ensures Run(w, Plain(d)) == Some(Plain(d)) {
      InertRun(w, d);
    }
  }

  lemma RunOne(c: char, st: Scan)
    ensures Run([c], st) == if Closes(st, c) then None else Some(Step(st, c))
  {
    assert [c][1..] == [];
  }

  lemma NeutralGroup(w: string)
    requires Neutral(w)
    ensures Neutral("(" + w + ")")
  {
    forall d: nat | d > 0 ensures Run("(" + w + ")", Plain(d)) == Some(Plain(d)) {
      RunConcat("(" + w, ")", Plain(d));
      RunConcat("(", w, Plain(d));
      RunOne('(', Plain(d));
      RunOne(')', Plain(d + 1));
      assert Run(w, Plain(d + 1)) == Some(Plain(d + 1));
    }
  }

  // ----- The scanning loops of the reader -----

  /** First index from `i` on that is past the quoted part starting there (or past the end). */
  function QuoteEnd(s: string, i: nat): (r: nat)
    ensures r >= i
    decreases |s| - i
  {
    if i >= |s| || s[i] == '"' then i
    else if s[i] == '\\' then QuoteEnd(s, i + 2)
    else QuoteEnd(s, i + 1)
  }

  /** The closing position, found by going on from index `i` in the given state. */
  ghost function CloseFrom(s: string, i: nat, st: Scan): Option<nat> {
    if i > |s| then None else Shift(i, CloseAt(s[i..], st))
  }

  lemma CloseOne(s: string, i: nat, st: Scan)
    requires i < |s|
    ensures CloseFrom(s, i, st) == if Closes(st, s[i]) then Some(i) else CloseFrom(s, i + 1, Step(st, s[i]))
  {
    var t := s[i..];
    assert t[1..] == s[i + 1..] && t[0] == s[i];
  }

  /** Jumping over a quoted part in one go reaches the same state as reading it character by character. */
  lemma {:induction false} QuoteJump(s: string, i: nat, d: nat)
    ensures CloseFrom(s, i, Quoted(d)) == CloseFrom(s, QuoteEnd(s, i) + 1, Plain(d))
    decreases |s| - i
  {
    if i < |s| {
      CloseOne(s, i, Quoted(d));
      if s[i] == '\\' {
        if i + 1 < |s| {
          CloseOne(s, i + 1, Escaped(d));
        }
        QuoteJump(s, i + 2, d);
      } else if s[i] != '"' {
        QuoteJump(s, i + 1, d);
      }
    }
  }

  /** The loop of `extract_parens` over a quoted part: two characters at a backslash, else one. */
  method SkipQuoted(s: string, start: nat) returns (i: nat)
    ensures i == QuoteEnd(s, start)
  {
    i := start;
    while i < |s| && s[i] != '"'
      invariant QuoteEnd(s, i) == QuoteEnd(s, start)
      decreases |s| - i
    {
      if s[i] == '\\' {
        i := i + 1;
      }
      i := i + 1;
    }
  }

  /** The index-and-depth loop of `extract_parens`. */
  method ExtractParensLoop(s: string) returns (r: Result<(string, string)>)
    ensures r == ExtractParens(s)
  {
    var depth: nat, i: nat := 1, 0;
    assert s[0..] == s;
    while i < |s|
      invariant depth >= 1
      invariant CloseAt(s, Plain(1)) == CloseFrom(s, i, Plain(depth))
    {
      CloseOne(s, i, Plain(depth));
      if s[i] == '(' {
        depth := depth + 1;
      } else if s[i] == ')' {
        depth := depth - 1;
        if depth == 0 {
          return Ok((s[..i], s[i + 1..]));
        }
      } else if s[i] == '"' {
        QuoteJump(s, i + 1, depth);
        i := SkipQuoted(s, i + 1);
      }
      i := i + 1;
    }
    r := Err;
  }

  // ----- Quoted strings -----

  /** Character a backslash escape stands for; an unknown escape stands for its own character. */
  function EscapeMeaning(c: char): char {
    match c
    case 'n' => '\n'
    case 't' => '\t'
    case 'r' => '\r'
    case '0' => '\0'
    case _ => c
  }

  /** Meaning of the text between the quotes. */
  function Unescape(s: string): Result<string> {
    if s == [] then Ok([])
    else if s[0] != '\\' then Prepend([s[0]], Unescape(s[1..]))
    else if |s| == 1 then Err
    else Prepend([EscapeMeaning(s[1])], Unescape(s[2..]))
  }

  /** `parse_rust_string`; a lone quote, on which the original panics, is an error here. */
  function ParseRustString(text: string): Result<string> {
    var s := Trim(text);
    if |s| < 2 || s[0] != '"' || s[|s| - 1] != '"' then Err else Unescape(s[1..|s| - 1])
  }

  /** The character loop of `parse_rust_string`. */
  method UnescapeLoop(s: string) returns (r: Result<string>)
    ensures r == Unescape(s)
  {
    var result, i := "", 0;
    assert s[0..] == s;
    PrependNothing(Unescape(s));
    while i < |s|
      invariant i <= |s|
      invariant Unescape(s) == Prepend(result, Unescape(s[i..]))
    {
      var c := s[i];
      assert s[i..][1..] == s[i + 1..];
      i := i + 1;
      if c == '\\' {
        if i == |s| {
          return Err;
        }
        assert s[i - 1..][2..] == s[i + 1..];
        PrependTwice(result, [EscapeMeaning(s[i])], Unescape(s[i + 1..]));
        result := result + [EscapeMeaning(s[i])];
        i := i + 1;
      } else {
        PrependTwice(result, [c], Unescape(s[i..]));
        result := result + [c];
      }
    }
    assert s[i..] == [] && result + [] == result;
    r := Ok(result);
  }

  // ----- The printer's quoting (Rust's `{:?}` for strings) and its exact inverse image -----

  function HexDigit(n: nat): char
    requires n < 16
  {
    "0123456789abcdef"[n]
  }

  function Hex(n: nat): (r: string)
    ensures |r| > 0
    ensures forall i :: 0 <= i < |r| ==> r[i] != '\\' && r[i] != '"' && r[i] != '(' && r[i] != ')'
  {
    if n < 16 then [HexDigit(n)] else Hex(n / 16) + [HexDigit(n % 16)]
  }

  /** The number that a string of hexadecimal digits stands for. */
  function HexValue(s: string): int {
    if s == "" then 0
    else
      var c := s[|s| - 1];
      16 * HexValue(s[..|s| - 1]) + (if '0' <= c <= '9' then c as int - 48 else c as int - 87)
  }

  /** The code of a character is printed in hexadecimal digits, with small letters and without a leading zero. */
  lemma {:induction false} HexIs(n: nat)
    ensures HexValue(Hex(n)) == n && (n > 0 ==> Hex(n)[0] != '0')
    ensures forall i :: 0 <= i < |Hex(n)| ==> '0' <= Hex(n)[i] <= '9' || 'a' <= Hex(n)[i] <= 'f'
  {
    HexDigitIs(n % 16);
    hide HexDigit;
    if n < 16 {
      assert Hex(n)[..0] == "";
    } else {
      HexIs(n / 16);
      assert Hex(n)[..|Hex(n)| - 1] == Hex(n / 16);
    }
  }

  lemma HexDigitIs(d: nat)
    requires d < 16
    ensures var c := HexDigit(d);
      if d < 10 then '0' <= c <= '9' && c as int == 48 + d else 'a' <= c <= 'f' && c as int == 87 + d
  {
  }

  /** Printed form of one character; `printable` is the library's table of characters shown as themselves. */
  function DebugChar(printable: set<char>, c: char): string {
    if c == '\0' then "\\0"
    else if c == '\t' then "\\t"
    else if c == '\r' then "\\r"
    else if c == '\n' then "\\n"
    else if c == '"' then "\\\""
    else if c == '\\' then "\\\\"
    else if c in printable then [c]
    else "\\u{" + Hex(c as nat) + "}"
  }

  function DebugChars(printable: set<char>, s: string): string {
    if s == [] then [] else DebugChar(printable, s[0]) + DebugChars(printable, s[1..])
  }

  function DebugString(printable: set<char>, s: string): string {
    "\"" + DebugChars(printable, s) + "\""
  }

  /** Characters whose printed form the reader understands. */
  predicate Readable(printable: set<char>, c: char) {
    c in printable || c in {'\0', '\t', '\r', '\n', '"', '\\'}
  }

  predicate AllReadable(printable: set<char>, s: string) {
    forall i :: 0 <= i < |s| ==> Readable(printable, s[i])
  }

  /** What reading back the printed form of one character yields. */
  function RereadChar(printable: set<char>, c: char): string {
    if Readable(printable, c) then [c] else "u{" + Hex(c as nat) + "}"
  }

  function RereadString(printable: set<char>, s: string): string {
    if s == [] then [] else RereadChar(printable, s[0]) + RereadString(printable, s[1..])
  }

  lemma {:induction false} UnescapePlain(w: string, t: string)
    requires '\\' !in w
    ensures Unescape(w + t) == Prepend(w, Unescape(t))
  {
    if w == [] {
      assert w + t == t;
      PrependNothing(Unescape(t));
    } else {
      assert (w + t)[1..] == w[1..] + t;
      UnescapePlain(w[1..], t);
      PrependTwice([w[0]], w[1..], Unescape(t));
      assert [w[0]] + w[1..] == w;
    }
  }

  lemma UnescapeDebugChar(printable: set<char>, c: char, t: string)
    ensures Unescape(DebugChar(printable, c) + t) == Prepend(RereadChar(printable, c), Unescape(t))
  {
    var w := DebugChar(printable, c);
    if Readable(printable, c) {
      if |w| == 2 {
        assert (w + t)[2..] == t;
      } else {
        assert (w + t)[1..] == t;
      }
    } else {
      var h := "{" + Hex(c as nat) + "}";
      assert w + t == "\\u" + (h + t);
      assert ("\\u" + (h + t))[2..] == h + t;
      UnescapePlain(h, t);
      PrependTwice("u", h, Unescape(t));
      assert "u{" + Hex(c as nat) + "}" == "u" + h;
    }
  }

  lemma {:induction false} UnescapeDebug(printable: set<char>, s: string)
    ensures Unescape(DebugChars(printable, s)) == Ok(RereadString(printable, s))
  {
    if s != [] {
      UnescapeDebug(printable, s[1..]);
      UnescapeDebugChar(printable, s[0], DebugChars(printable, s[1..]));
    }
  }

  lemma {:induction false} RereadLength(printable: set<char>, s: string)
    ensures |RereadString(printable, s)| >= |s|
    ensures RereadString(printable, s) == s <==> AllReadable(printable, s)
    ensures |RereadString(printable, s)| == |s| <==> AllReadable(printable, s)
  {
    if s != [] {
      RereadLength(printable, s[1..]);
      assert s == [s[0]] + s[1..];
      assert AllReadable(printable, s) <==> Readable(printable, s[0]) && AllReadable(printable, s[1..]);
    }
  }

  /** A printed string reads back as itself exactly when none of its characters needs a \u escape. */
  lemma {:induction false} StringRoundTrip(printable: set<char>, s: string)
    ensures ParseRustString(DebugString(printable, s)) == Ok(RereadString(printable, s))
    ensures ParseRustString(DebugString(printable, s)) == Ok(s) <==> AllReadable(printable, s)
  {
    var q := DebugString(printable, s);
    assert Trim(q) == q;
    assert q[1..|q| - 1] == DebugChars(printable, s);
    UnescapeDebug(printable, s);
    RereadLength(printable, s);
  }

  lemma {:induction false} InertQuotedRun(w: string, d: nat)
    requires forall i :: 0 <= i < |w| ==> w[i] != '\\' && w[i] != '"'
    ensures Run(w, Quoted(d)) == Some(Quoted(d))
  {
    if w != [] {
      InertQuotedRun(w[1..], d);
    }
  }

  lemma DebugCharQuoted(printable: set<char>, c: char, d: nat)
    ensures Run(DebugChar(printable, c), Quoted(d)) == Some(Quoted(d))
  {
    var w := DebugChar(printable, c);
    if !Readable(printable, c) {
      var h := "{" + Hex(c as nat) + "}";
      assert w == "\\u" + h;
      RunConcat("\\u", h, Quoted(d));
      assert Run("\\u", Quoted(d)) == Run("u", Escaped(d)) == Some(Quoted(d));
      InertQuotedRun(h, d);
    } else if |w| == 2 {
      assert Run(w, Quoted(d)) == Run(w[1..], Escaped(d)) == Run([], Quoted(d));
    }
  }

  lemma {:induction false} DebugCharsQuoted(printable: set<char>, s: string, d: nat)
    ensures Run(DebugChars(printable, s), Quoted(d)) == Some(Quoted(d))
  {
    if s != [] {
      DebugCharQuoted(printable, s[0], d);
      DebugCharsQuoted(printable, s[1..], d);
      RunConcat(DebugChar(printable, s[0]), DebugChars(printable, s[1..]), Quoted(d));
    }
  }

  /** A quoted string is passed over whatever parentheses, quotes and backslashes it holds. */
  lemma DebugNeutral(printable: set<char>, s: string)
    ensures Neutral(DebugString(printable, s))
  {
    var w := DebugChars(printable, s);
    forall d: nat | d > 0 ensures Run("\"" + w + "\"", Plain(d)) == Some(Plain(d)) {
      RunConcat("\"" + w, "\"", Plain(d));
      RunConcat("\"", w, Plain(d));
      assert Run("\"", Plain(d)) == Some(Quoted(d));
      DebugCharsQuoted(printable, s, d);
    }
  }
}
