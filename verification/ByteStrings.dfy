/** Byte strings with a length and a capacity in front: allocation, concatenation, append in place. */
module ByteStrings {
  type Byte = b: nat | b < 256

  /** A heap block: the two header words, and room for the bytes and a terminating zero. */
  class Block {
    var len: nat
    var cap: nat
    var data: array<Byte>

    ghost predicate Valid()
      reads this, data
    {
      len <= cap && data.Length == cap + 1 && data[len] == 0
    }

    ghost function Text(): seq<Byte>
      requires Valid()
      reads this, data
    {
      data[..len]
    }

    /** Room for exactly `n` bytes. */
    constructor (n: nat)
      ensures Valid() && len == n && cap == n && fresh(data)
    {
      len, cap := n, n;
      data := new Byte[n + 1](_ => 0);
    }

    /** Copies bytes into the block from position `at` on. */
    method Copy(at: nat, src: Block, n: nat)
      requires src != this && src.data != data && src.Valid() && n <= src.len && at + n < data.Length
      modifies data
      ensures data[..at] == old(data[..at]) && data[at..at + n] == src.Text()[..n]
      ensures data[at + n..] == old(data[at + n..])
    {
      for k := 0 to n
        invariant data[..at] == old(data[..at]) && data[at..at + k] == src.data[..k]
        invariant data[at + k..] == old(data[at + k..])
      {
        data[at + k] := src.data[k];
        assert data[at..at + k + 1] == data[at..at + k] + [src.data[k]];
      }
    }
  }

  /** The null pointer is the empty string. */
  ghost function TextOf(s: Block?): seq<Byte>
    requires s != null ==> s.Valid()
    reads s, if s == null then {} else {s.data}
  {
    if s == null then [] else s.Text()
  }

  ghost predicate ValidString(s: Block?)
    reads s, if s == null then {} else {s.data}
  {
    s != null ==> s.Valid()
  }

  function LengthOf(s: Block?): nat
    reads s
  {
    if s == null then 0 else s.len
  }

  method Duplicate(s: Block?) returns (d: Block)
    requires ValidString(s)
    ensures fresh(d) && fresh(d.data) && d.Valid() && d.Text() == TextOf(s) && d.cap == d.len
  {
    d := new Block(LengthOf(s));
    if s != null {
      d.Copy(0, s, s.len);
    }
  }

  /** Copies a whole string, if there is one, into a block. */
  method Put(d: Block, at: nat, s: Block?)
    requires ValidString(s) && (s != null ==> s != d && s.data != d.data) && at + LengthOf(s) < d.data.Length
    modifies d.data
    ensures d.data[..at] == old(d.data[..at]) && d.data[at..at + LengthOf(s)] == TextOf(s)
    ensures d.data[at + LengthOf(s)..] == old(d.data[at + LengthOf(s)..])
  {
    if s != null {
      d.Copy(at, s, s.len);
    }
  }

  lemma TwoParts(data: seq<Byte>, la: nat, lb: nat)
    requires la + lb <= |data|
    ensures data[..la + lb] == data[..la] + data[la..la + lb]
  {
  }

  method Concat(a: Block?, b: Block?) returns (r: Block)
    requires ValidString(a) && ValidString(b)
    ensures fresh(r) && fresh(r.data) && r.Valid() && r.Text() == TextOf(a) + TextOf(b) && r.cap == r.len
  {
    r := new Block(LengthOf(a) + LengthOf(b));
    Put(r, 0, a);
    var la := LengthOf(a);
    assert r.data[..la] == TextOf(a) by {
      assert r.data[..la] == r.data[0..la];
    }
    Put(r, la, b);
    TwoParts(r.data[..], la, LengthOf(b));
  }

  const DOUBLING_FROM := 4096

  /** The capacity after a move: exact for short strings, doubled for long ones. */
  function Grown(la: nat, newLen: nat): nat {
    if la > DOUBLING_FROM && 2 * la > newLen then 2 * la else newLen
  }

  /** The new capacity is the needed length or, for a string longer than 4096 bytes, twice its old length,
      whichever is more. */
  lemma CapacityAfterMove(la: nat, newLen: nat)
    ensures Grown(la, newLen) == newLen || (la > 4096 && Grown(la, newLen) == 2 * la)
    ensures Grown(la, newLen) >= newLen && (la > 4096 ==> Grown(la, newLen) >= 2 * la)
  {
  }

  /** What an append leaves of the header, and how many bytes the move copied. */
  ghost predicate Appended(la: nat, cap: nat, lb: nat, reallocFails: bool, len': nat, cap': nat, moved: nat) {
    && len' == la + lb
    && (la + lb <= cap ==> cap' == cap && moved == 0)
    && (la + lb > cap ==> cap' == (if reallocFails then la + lb else Grown(la, la + lb)) && moved == la)
  }

  method AppendInPlace(a: Block, b: Block?)
    requires a.Valid() && ValidString(b) && (b != null ==> a != b && a.data != b.data) && a.len + LengthOf(b) <= a.cap
    modifies a`len, a.data
    ensures a.Valid() && a.Text() == old(a.Text()) + old(TextOf(b)) && a.len == old(a.len) + old(LengthOf(b))
  {
    var la, lb := a.len, LengthOf(b);
    a.len := la + lb;
    Put(a, la, b);
    a.data[la + lb] := 0;
    TwoParts(a.data[..], la, lb);
  }

  method Move(a: Block, b: Block?, cap: nat) returns (r: Block)
    requires a.Valid() && ValidString(b) && a.len + LengthOf(b) <= cap
    ensures fresh(r) && fresh(r.data) && r.Valid() && r.cap == cap && r.Text() == a.Text() + TextOf(b)
  {
    var la, lb := a.len, LengthOf(b);
    r := new Block(cap);
    Put(r, 0, a);
    assert r.data[..la] == a.Text() by {
      assert r.data[..la] == r.data[0..la];
    }
    Put(r, la, b);
    r.data[la + lb] := 0;
    r.len := la + lb;
    TwoParts(r.data[..], la, lb);
  }

  /** Appends in place when the capacity allows, else moves the string to a larger block. */
  method Append(a: Block?, b: Block?, reallocFails: bool) returns (r: Block, ghost moved: nat)
    requires ValidString(a) && ValidString(b)
    requires a != null && b != null ==> a != b && a.data != b.data
    modifies a, if a == null then {} else {a.data}
    ensures r.Valid() && r.Text() == old(TextOf(a)) + old(TextOf(b))
    ensures a == null ==> fresh(r) && fresh(r.data) && r.cap == r.len && moved == 0
    ensures a != null ==> Appended(old(a.len), old(a.cap), old(LengthOf(b)), reallocFails, r.len, r.cap, moved)
    ensures if a != null && old(a.len + LengthOf(b)) <= old(a.cap) then r == a && r.data == old(a.data)
            else fresh(r) && fresh(r.data)
  {
    moved := 0;
    if a == null {
      r := Duplicate(b);
      return;
    }
    var la, lb := a.len, LengthOf(b);
    if la + lb <= a.cap {
      AppendInPlace(a, b);
      r := a;
    } else {
      r := Move(a, b, if reallocFails then la + lb else Grown(la, la + lb));
      moved := la;
    }
  }

  // ----- What building a string costs -----

  /** The sum of the numbers below `m`. */
  function Below(m: nat): nat {
    if m == 0 then 0 else Below(m - 1) + (m - 1)
  }

  function Min(a: nat, b: nat): nat {
    if a < b then a else b
  }

  /** Moves of short strings have copied `small` bytes so far, moves of long ones `large`. */
  predicate Paid(len: nat, cap: nat, small: nat, large: nat) {
    len <= cap <= 2 * len && small <= Below(Min(len, DOUBLING_FROM + 1)) && large <= len + cap
  }

  lemma {:induction false} BelowMonotone(a: nat, b: nat)
    requires a <= b
    ensures Below(a) <= Below(b)
  {
    if a < b {
      BelowMonotone(a, b - 1);
    }
  }

  lemma {:induction false} BelowClosed(m: nat)
    ensures 2 * Below(m) == m * m - m
  {
    if m > 0 {
      BelowClosed(m - 1);
    }
  }

  /** An append keeps the account: doubling pays for the moves of long strings, and a short string moves
      at most once at each length. */
  lemma AppendPaid(la: nat, cap: nat, lb: nat, len': nat, cap': nat, moved: nat, small: nat, large: nat)
    requires Paid(la, cap, small, large) && Appended(la, cap, lb, false, len', cap', moved)
    ensures if la > DOUBLING_FROM then Paid(len', cap', small, large + moved)
            else Paid(len', cap', small + moved, large)
  {
    hide Below;
    BelowMonotone(Min(la, DOUBLING_FROM + 1), Min(len', DOUBLING_FROM + 1));
    if moved > 0 && la <= DOUBLING_FROM {
      NextBelow(la);
      BelowMonotone(la + 1, Min(len', DOUBLING_FROM + 1));
    }
  }

  lemma NextBelow(m: nat)
    ensures Below(m + 1) == Below(m) + m
  {
  }

  function Joined(parts: seq<seq<Byte>>): seq<Byte> {
    if parts == [] then [] else Joined(parts[..|parts| - 1]) + parts[|parts| - 1]
  }

  /** A string holding the given bytes, as evaluating a part yields. */
  method Literal(bytes: seq<Byte>) returns (s: Block)
    ensures fresh(s) && fresh(s.data) && s.Valid() && s.Text() == bytes
  {
    s := new Block(|bytes|);
    for k := 0 to |bytes|
      invariant s.Valid() && s.len == |bytes| && fresh(s.data) && s.data[..k] == bytes[..k]
    {
      s.data[k] := bytes[k];
    }
    assert bytes[..|bytes|] == bytes;
  }

  /** Appending part after part yields all of them joined; the moves on the way copy at most three times
      the final length, and the sum of the numbers up to 4096 on top. */
  method Build(parts: seq<seq<Byte>>) returns (r: Block?, ghost moved: nat)
    ensures ValidString(r) && TextOf(r) == Joined(parts)
    ensures moved <= 3 * |Joined(parts)| + DOUBLING_FROM * (DOUBLING_FROM + 1) / 2
  {
    hide Below;
    r, moved := null, 0;
    ghost var small, large := 0, 0;
    for k := 0 to |parts|
      invariant ValidString(r) && (r != null ==> fresh(r) && fresh(r.data)) && TextOf(r) == Joined(parts[..k])
      invariant moved == small + large
      invariant if r == null then moved == 0 else Paid(r.len, r.cap, small, large)
    {
      assert parts[..k + 1][..k] == parts[..k];
      var part := Literal(parts[k]);
      ghost var was, la, cap := r, LengthOf(r), if r == null then 0 else r.cap;
      ghost var now;
      r, now := Append(r, part, false);
      if was != null {
        AppendPaid(la, cap, |parts[k]|, r.len, r.cap, now, small, large);
        if la > DOUBLING_FROM {
          large := large + now;
        } else {
          small := small + now;
        }
      }
      moved := moved + now;
    }
    assert parts[..|parts|] == parts;
    BelowMonotone(Min(LengthOf(r), DOUBLING_FROM + 1), DOUBLING_FROM + 1);
    BelowClosed(DOUBLING_FROM + 1);
  }
}
