/**
 * Droppable container ids. A cell's container id is the template string
 * `${rowIdx}_${colIdx}`; the handler takes it apart with `split('_')` and
 * indexes the grid with the two pieces, which JavaScript accepts as array
 * indices only when they are canonical decimal numerals. The pool's
 * container id is the fixed string `assignedUsers`.
 */
module ContainerIds {
  import opened Wrappers
  import opened Grid

  const PoolId: string := "assignedUsers"

  predicate IsDigit(c: char)
  {
    '0' <= c <= '9'
  }

  function DigitChar(d: nat): (c: char)
    requires d < 10
    ensures IsDigit(c)
  {
    ('0' as int + d) as char
  }

  /** Decimal rendering of a natural number, as a template literal does it. */
  function NatToString(n: nat): (s: string)
    ensures |s| >= 1
    ensures forall i :: 0 <= i < |s| ==> IsDigit(s[i])
    ensures s[0] == '0' ==> n == 0 && |s| == 1
  {
    if n < 10 then [DigitChar(n)] else NatToString(n / 10) + [DigitChar(n % 10)]
  }

  /** The number a string of decimal digits denotes. */
  function DigitsValue(s: string): nat
    requires forall i :: 0 <= i < |s| ==> IsDigit(s[i])
  {
    if s == [] then 0
    else
      assert IsDigit(s[|s| - 1]);
      DigitsValue(s[..|s| - 1]) * 10 + (s[|s| - 1] as int - '0' as int)
  }

  /** A string JavaScript treats as an array index: digits, without a leading zero. */
  predicate IsCanonicalIndex(s: string)
  {
    && |s| >= 1
    && (forall i :: 0 <= i < |s| ==> IsDigit(s[i]))
    && (s[0] == '0' ==> |s| == 1)
  }

  /** The array index a property name stands for, if it is one. */
  function ParseIndex(s: string): (r: Option<nat>)
    ensures r.Some? <==> IsCanonicalIndex(s)
  {
    if IsCanonicalIndex(s) then Some(DigitsValue(s)) else None
  }

  /** `s.split(sep)`: the pieces between the separators, at least one. */
  function Split(s: string, sep: char): (r: seq<string>)
    ensures |r| >= 1
    ensures sep !in s ==> r == [s]
  {
    if s == [] then [""]
    else
      var rest := Split(s[1..], sep);
      assert sep !in s ==> sep !in s[1..] && [s[0]] + s[1..] == s;
      if s[0] == sep then [""] + rest else [[s[0]] + rest[0]] + rest[1..]
  }

  /** Splitting at the first separator: the part before it is the first piece. */
  lemma {:induction false} SplitAtFirst(a: string, sep: char, b: string)
    requires sep !in a
    ensures Split(a + [sep] + b, sep) == [a] + Split(b, sep)
  {
    if a == [] {
      assert a + [sep] + b == [sep] + b;
      assert ([sep] + b)[1..] == b;
    } else {
      assert (a + [sep] + b)[1..] == a[1..] + [sep] + b;
      SplitAtFirst(a[1..], sep, b);
      assert [a[0]] + a[1..] == a;
    }
  }

  lemma {:induction false} DigitsValueOfNatToString(n: nat)
    ensures DigitsValue(NatToString(n)) == n
  {
    if n >= 10 {
      var s := NatToString(n);
      assert s[..|s| - 1] == NatToString(n / 10);
      DigitsValueOfNatToString(n / 10);
    }
  }

  /** Reading back a rendered index gives the number. */
  lemma ParseIndexOfNatToString(n: nat)
    ensures ParseIndex(NatToString(n)) == Some(n)
  {
    DigitsValueOfNatToString(n);
  }

  /** The droppable id of the cell at `loc`: `${rowIdx}_${colIdx}`. */
  function Encode(loc: Loc): (id: string)
    ensures Split(id, '_') == [NatToString(loc.row), NatToString(loc.col)]
  {
    var r, c := NatToString(loc.row), NatToString(loc.col);
    assert '_' !in r && '_' !in c;
    SplitAtFirst(r, '_', c);
    assert r + "_" + c == r + ['_'] + c;
    r + "_" + c
  }

  /**
   * The cell a container id designates: the first two pieces of
   * `split('_')`, each taken as an array index. `None` when there are fewer
   * than two pieces or a piece is not an index (the pool's id, for one).
   */
  function Decode(id: string): (r: Option<Loc>)
    ensures '_' !in id ==> r.None?
    ensures r.Some? ==> |Split(id, '_')| >= 2 && IsCanonicalIndex(Split(id, '_')[0]) && IsCanonicalIndex(Split(id, '_')[1])
  {
    var pieces := Split(id, '_');
    if |pieces| < 2 then None
    else
      match (ParseIndex(pieces[0]), ParseIndex(pieces[1]))
      case (Some(row), Some(col)) => Some(Loc(row, col))
      case _ => None
  }

  /** Decoding a cell's container id gives back its row and column. */
  lemma DecodeEncode(loc: Loc)
    ensures Decode(Encode(loc)) == Some(loc)
  {
    var r, c := NatToString(loc.row), NatToString(loc.col);
    assert '_' !in r && '_' !in c;
    SplitAtFirst(r, '_', c);
    assert Encode(loc) == r + ['_'] + c;
    ParseIndexOfNatToString(loc.row);
    ParseIndexOfNatToString(loc.col);
  }

  /** Two cells have the same container id exactly when they are the same cell. */
  lemma EncodeInjective(a: Loc, b: Loc)
    ensures Encode(a) == Encode(b) <==> a == b
  {
    DecodeEncode(a);
    DecodeEncode(b);
  }

  /** The pool's container id designates no cell, so it is never a cell's id. */
  lemma PoolIdIsNoCell(loc: Loc)
    ensures Decode(PoolId) == None
    ensures Encode(loc) != PoolId
  {
    assert '_' !in PoolId;
    DecodeEncode(loc);
  }
}
