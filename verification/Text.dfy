/** String helpers with the meaning of Rust's `trim`, `find` and `rfind`. */
module Text {
  import opened Ir

  /** The characters with the Unicode property White_Space. */
  predicate IsWhite(c: char) {
    var n := c as int;
    || 9 <= n <= 13 || n == 32 || n == 0x85 || n == 0xA0 || n == 0x1680
    || 0x2000 <= n <= 0x200A || n == 0x2028 || n == 0x2029 || n == 0x202F || n == 0x205F || n == 0x3000
  }

  function TrimStart(s: string): (r: string)
    ensures |r| <= |s|
  {
    if s != [] && IsWhite(s[0]) then TrimStart(s[1..]) else s
  }

  function TrimEnd(s: string): (r: string)
    ensures |r| <= |s|
  {
    if s != [] && IsWhite(s[|s| - 1]) then TrimEnd(s[..|s| - 1]) else s
  }

  function Trim(s: string): (r: string)
    ensures |r| <= |s|
  {
    TrimEnd(TrimStart(s))
  }

  /** A text that trimming leaves alone. */
  predicate Trimmed(s: string) {
    s != [] ==> !IsWhite(s[0]) && !IsWhite(s[|s| - 1])
  }

  lemma TrimTrimmed(s: string)
    requires Trimmed(s)
    ensures TrimStart(s) == s && TrimEnd(s) == s && Trim(s) == s
  {
  }

  lemma TrimLeadingSpace(b: string)
    requires b != [] && !IsWhite(b[0])
    ensures TrimStart(" " + b) == b && TrimStart(b) == b
  {
    assert (" " + b)[1..] == b;
  }

  lemma TrimTrailingSpace(b: string)
    requires b != [] && Trimmed(b)
    ensures Trim(b + " ") == b
  {
    var s := b + " ";
    assert s[0] == b[0] && s[|s| - 1] == ' ' && s[..|s| - 1] == b;
    TrimTrimmed(b);
    assert TrimStart(s) == s;
  }

  function Find(s: string, c: char): (r: Option<nat>)
    ensures r.Some? ==> r.value < |s| && s[r.value] == c && c !in s[..r.value]
    ensures r.None? ==> c !in s
  {
    if s == [] then None
    else if s[0] == c then Some(0)
    else
      match Find(s[1..], c)
      case None => None
      case Some(i) =>
        assert s[..i + 1] == [s[0]] + s[1..][..i];
        Some(i + 1)
  }

  function RFind(s: string, c: char): (r: Option<nat>)
    ensures r.Some? ==> r.value < |s| && s[r.value] == c && c !in s[r.value + 1..]
    ensures r.None? ==> c !in s
  {
    if s == [] then None
    else if s[|s| - 1] == c then Some(|s| - 1)
    else
      var front := s[..|s| - 1];
      match RFind(front, c)
      case None =>
        assert s == front + [s[|s| - 1]];
        None
      case Some(i) =>
        assert s[i + 1..] == front[i + 1..] + [s[|s| - 1]];
        Some(i)
  }

  /** `find` stops exactly at the end of a prefix that does not hold the character. */
  lemma FindAfter(p: string, c: char, t: string)
    requires c !in p
    ensures Find(p + [c] + t, c) == Some(|p|)
  {
    var s := p + [c] + t;
    assert s[|p|] == c;
    var i := Find(s, c).value;
    assert s[..|p|] == p;
  }

  lemma RFindLast(p: string, c: char)
    ensures RFind(p + [c], c) == Some(|p|)
  {
  }
}
