/**
  The assignment parser (Sources/CommandParser/parse_assignment.c): a state machine in tables, run by binary
  searches, that takes "name = value" apart in place.
 */
module ParseAssignment {
  import opened Words
  import opened Wrappers

  // ----- the tables, as functions of the index

  /** Where the keys of a state begin. */
  function KeyOffset(i: nat): nat {
    match i
    case 0 => 0 case 1 => 0 case 2 => 4 case 3 => 12 case 4 => 16 case 5 => 26 case 6 => 35 case 7 => 46
    case 8 => 48 case 9 => 54 case 10 => 54 case 11 => 56 case 12 => 59
    case _ => 0
  }

  /** Single keys ascending, then the ends of ranges ascending, state by state. */
  function TransKey(i: nat): byte {
    match i
    case 0 => 65 case 1 => 90 case 2 => 97 case 3 => 122 case 4 => 32 case 5 => 61 case 6 => 9 case 7 => 13
    case 8 => 65 case 9 => 90 case 10 => 97 case 11 => 122 case 12 => 32 case 13 => 61 case 14 => 9 case 15 => 13
    case 16 => 32 case 17 => 34 case 18 => 39 case 19 => 43 case 20 => 45 case 21 => 48 case 22 => 9 case 23 => 13
    case 24 => 49 case 25 => 57 case 26 => 32 case 27 => 9 case 28 => 13 case 29 => 48 case 30 => 57 case 31 => 65
    case 32 => 90 case 33 => 97 case 34 => 122 case 35 => 32 case 36 => 34 case 37 => 39 case 38 => 9 case 39 => 13
    case 40 => 48 case 41 => 57 case 42 => 65 case 43 => 90 case 44 => 97 case 45 => 122 case 46 => 48 case 47 => 57
    case 48 => 48 case 49 => 57 case 50 => 65 case 51 => 70 case 52 => 97 case 53 => 102 case 54 => 48 case 55 => 57
    case 56 => 120 case 57 => 48 case 58 => 57 case 59 => 48 case 60 => 57 case 61 => 65 case 62 => 70 case 63 => 97
    case 64 => 102 case 65 => 0
    case _ => 0
  }

  /** How many single keys a state has. */
  function SingleLength(i: nat): nat {
    match i
    case 0 => 0 case 1 => 0 case 2 => 2 case 3 => 2 case 4 => 6 case 5 => 1 case 6 => 3 case 7 => 0
    case 8 => 0 case 9 => 0 case 10 => 0 case 11 => 1 case 12 => 0
    case _ => 0
  }

  /** How many ranges a state has. */
  function RangeLength(i: nat): nat {
    match i
    case 0 => 0 case 1 => 2 case 2 => 3 case 3 => 1 case 4 => 2 case 5 => 4 case 6 => 4 case 7 => 1
    case 8 => 3 case 9 => 0 case 10 => 1 case 11 => 1 case 12 => 3
    case _ => 0
  }

  /** Where the transitions of a state begin: one a key, and one for no match. */
  function IndexOffset(i: nat): nat {
    match i
    case 0 => 0 case 1 => 0 case 2 => 3 case 3 => 9 case 4 => 13 case 5 => 22 case 6 => 28 case 7 => 36
    case 8 => 38 case 9 => 42 case 10 => 43 case 11 => 45 case 12 => 48
    case _ => 0
  }

  /** The number of a transition. */
  function Indicies(i: nat): nat {
    match i
    case 0 => 0 case 1 => 0 case 2 => 1 case 3 => 2 case 4 => 3 case 5 => 2 case 6 => 4 case 7 => 4
    case 8 => 1 case 9 => 5 case 10 => 6 case 11 => 5 case 12 => 1 case 13 => 6 case 14 => 7 case 15 => 7
    case 16 => 8 case 17 => 8 case 18 => 9 case 19 => 6 case 20 => 10 case 21 => 1 case 22 => 11 case 23 => 11
    case 24 => 11 case 25 => 11 case 26 => 11 case 27 => 1 case 28 => 12 case 29 => 13 case 30 => 13 case 31 => 12
    case 32 => 12 case 33 => 12 case 34 => 12 case 35 => 1 case 36 => 14 case 37 => 1 case 38 => 15 case 39 => 15
    case 40 => 15 case 41 => 1 case 42 => 1 case 43 => 14 case 44 => 1 case 45 => 16 case 46 => 14 case 47 => 1
    case 48 => 15 case 49 => 15 case 50 => 15 case 51 => 1 case 52 => 0
    case _ => 0
  }

  /** The state a transition leads to; 0 is the error state. */
  function TransTarg(i: nat): nat {
    match i
    case 0 => 2 case 1 => 0 case 2 => 3 case 3 => 4 case 4 => 2 case 5 => 3 case 6 => 4 case 7 => 5
    case 8 => 7 case 9 => 11 case 10 => 10 case 11 => 6 case 12 => 6 case 13 => 9 case 14 => 10 case 15 => 12
    case 16 => 8
    case _ => 0
  }

  /** Where the actions of a transition begin; 0 for none. */
  function TransAction(i: nat): nat {
    match i
    case 0 => 1 case 1 => 0 case 2 => 3 case 3 => 3 case 4 => 0 case 5 => 0 case 6 => 0 case 7 => 0
    case 8 => 11 case 9 => 11 case 10 => 11 case 11 => 7 case 12 => 0 case 13 => 9 case 14 => 5 case 15 => 5
    case 16 => 5
    case _ => 0
  }

  /** The number of actions, and then the actions. */
  function Action(i: nat): nat {
    match i
    case 0 => 0 case 1 => 1 case 2 => 0 case 3 => 1 case 4 => 1 case 5 => 1 case 6 => 3 case 7 => 1
    case 8 => 4 case 9 => 1 case 10 => 5 case 11 => 2 case 12 => 2 case 13 => 3
    case _ => 0
  }

  const STATES: nat := 13

  const START: nat := 1

  function Single(cs: nat, j: nat): byte {
    TransKey(KeyOffset(cs) + j)
  }

  function Low(cs: nat, j: nat): byte {
    TransKey(KeyOffset(cs) + SingleLength(cs) + 2 * j)
  }

  function High(cs: nat, j: nat): byte {
    TransKey(KeyOffset(cs) + SingleLength(cs) + 2 * j + 1)
  }

  /** The keys of a state ascend. */
  lemma Sorted(cs: nat, i: nat, j: nat)
    requires cs < STATES && i < j
    ensures j < SingleLength(cs) ==> Single(cs, i) < Single(cs, j)
  {}

  /** The ranges of a state ascend and do not meet. */
  lemma RangesSorted(cs: nat, i: nat, j: nat)
    requires cs < STATES && i < j
    ensures j < RangeLength(cs) ==> High(cs, i) < Low(cs, j) && Low(cs, i) <= High(cs, i) && Low(cs, j) <= High(cs, j)
  {}

  // ----- the searches

  /** The binary search among the single keys of a state. */
  method FindSingle(cs: nat, ch: byte) returns (j: nat)
    requires cs < STATES
    ensures j <= SingleLength(cs) && (j < SingleLength(cs) ==> Single(cs, j) == ch)
    ensures j == SingleLength(cs) ==> forall i :: 0 <= i < SingleLength(cs) ==> Single(cs, i) != ch
  {
    hide Single, SingleLength;
    var n := SingleLength(cs);
    var lower, upper: int := 0, n - 1;
    while lower <= upper
      invariant 0 <= lower <= n && -1 <= upper < n
      invariant forall i :: 0 <= i < n && !(lower <= i <= upper) ==> Single(cs, i) != ch
      decreases upper - lower
    {
      var mid := lower + (upper - lower) / 2;
      forall i, k | 0 <= i < k < n ensures Single(cs, i) < Single(cs, k) {
        Sorted(cs, i, k);
      }
      if ch < Single(cs, mid) {
        upper := mid - 1;
      } else if ch > Single(cs, mid) {
        lower := mid + 1;
      } else {
        return mid;
      }
    }
    j := n;
  }

  predicate InRange(cs: nat, j: nat, ch: byte) {
    Low(cs, j) <= ch <= High(cs, j)
  }

  /** The binary search among the ranges of a state; its pointers step over two keys at a time. */
  method FindRange(cs: nat, ch: byte) returns (j: nat)
    requires cs < STATES
    ensures j <= RangeLength(cs) && (j < RangeLength(cs) ==> InRange(cs, j, ch))
    ensures j == RangeLength(cs) ==> forall i :: 0 <= i < RangeLength(cs) ==> !InRange(cs, i, ch)
  {
    hide Low, High, RangeLength, InRange;
    var n := RangeLength(cs);
    var lower, upper: int := 0, 2 * n - 2;
    ghost var lo, hi: int := 0, n - 1;
    while lower <= upper
      invariant 0 <= lo <= n && -1 <= hi < n && lower == 2 * lo && upper == 2 * hi
      invariant forall i :: 0 <= i < n && !(lo <= i <= hi) ==> !InRange(cs, i, ch)
      decreases hi - lo
    {
      Middle(lo, hi);
      var half := (upper - lower) / 2;
      var mid := lower + (half - half % 2);
      var m := mid / 2;
      Beside(cs, m, n, ch);
      if ch < Low(cs, m) {
        upper, hi := mid - 2, m - 1;
      } else if ch > High(cs, m) {
        lower, lo := mid + 2, m + 1;
      } else {
        return m;
      }
    }
    j := n;
  }

  /** The middle of two even places, made even. */
  lemma Middle(lo: int, hi: int)
    requires lo <= hi
    ensures var half := (2 * hi - 2 * lo) / 2;
            var mid := 2 * lo + (half - half % 2);
            lo <= mid / 2 <= hi && mid == 2 * (mid / 2)
  {}

  /** A character below a range is in none from there on, and one above it in none up to there. */
  lemma Beside(cs: nat, m: nat, n: nat, ch: byte)
    requires cs < STATES && n == RangeLength(cs) && m < n
    ensures InRange(cs, m, ch) <==> Low(cs, m) <= ch <= High(cs, m)
    ensures ch < Low(cs, m) ==> forall i :: m <= i < n ==> !InRange(cs, i, ch)
    ensures ch > High(cs, m) ==> forall i :: 0 <= i <= m ==> !InRange(cs, i, ch)
  {
    hide Low, High, RangeLength;
    forall i: nat | i < n
      ensures m < i ==> High(cs, m) < Low(cs, i) && Low(cs, m) <= High(cs, m)
      ensures i < m ==> High(cs, i) < Low(cs, m) && Low(cs, m) <= High(cs, m)
    {
      if m < i {
        RangesSorted(cs, m, i);
      } else if i < m {
        RangesSorted(cs, i, m);
      }
    }
  }

  // ----- what the tables say

  predicate Letter(ch: byte) {
    65 <= ch <= 90 || 97 <= ch <= 122
  }

  predicate Digit(ch: byte) {
    48 <= ch <= 57
  }

  predicate HexDigit(ch: byte) {
    Digit(ch) || 65 <= ch <= 70 || 97 <= ch <= 102
  }

  predicate Blank(ch: byte) {
    ch == 32 || 9 <= ch <= 13
  }

  predicate Quote(ch: byte) {
    ch == 34 || ch == 39
  }

  predicate Sign(ch: byte) {
    ch == 43 || ch == 45
  }

  predicate TextChar(ch: byte) {
    Letter(ch) || Digit(ch) || Blank(ch)
  }

  const EQUALS: byte := 61

  /** The number of the transition a state takes on a character. */
  function Choice(cs: nat, ch: byte): nat {
    match cs
    case 1 => if Letter(ch) then 0 else 1
    case 2 => if Letter(ch) then 4 else if Blank(ch) then 2 else if ch == EQUALS then 3 else 1
    case 3 => if Blank(ch) then 5 else if ch == EQUALS then 6 else 1
    case 4 =>
      if Blank(ch) then 6 else if Quote(ch) then 7 else if Sign(ch) then 8 else if ch == 48 then 9
      else if Digit(ch) then 10 else 1
    case 5 => if TextChar(ch) then 11 else 1
    case 6 => if TextChar(ch) then 12 else if Quote(ch) then 13 else 1
    case 7 => if Digit(ch) then 14 else 1
    case 8 => if HexDigit(ch) then 15 else 1
    case 10 => if Digit(ch) then 14 else 1
    case 11 => if ch == 120 then 16 else if Digit(ch) then 14 else 1
    case 12 => if HexDigit(ch) then 15 else 1
    case _ => 1
  }

  lemma SingleChoice(cs: nat, ch: byte, j: nat)
    requires 1 <= cs < STATES && j < SingleLength(cs) && Single(cs, j) == ch
    ensures Indicies(IndexOffset(cs) + j) == Choice(cs, ch)
  {}

  ghost predicate NoSingle(cs: nat, ch: byte) {
    forall i :: 0 <= i < SingleLength(cs) ==> Single(cs, i) != ch
  }

  lemma NoSingles(cs: nat, ch: byte)
    requires 1 <= cs < STATES && NoSingle(cs, ch)
    ensures cs == 2 || cs == 3 ==> ch != 32 && ch != EQUALS
    ensures cs == 4 ==> ch != 32 && !Quote(ch) && !Sign(ch) && ch != 48
    ensures cs == 5 ==> ch != 32
    ensures cs == 6 ==> ch != 32 && !Quote(ch)
    ensures cs == 11 ==> ch != 120
  {
    hide Single;
    SingleKeys(cs);
  }

  lemma SingleKeys(cs: nat)
    requires 1 <= cs < STATES
    ensures cs == 2 || cs == 3 ==> Single(cs, 0) == 32 && Single(cs, 1) == EQUALS
    ensures cs == 4 ==> Single(cs, 0) == 32 && Single(cs, 1) == 34 && Single(cs, 2) == 39
    ensures cs == 4 ==> Single(cs, 3) == 43 && Single(cs, 4) == 45 && Single(cs, 5) == 48
    ensures cs == 5 ==> Single(cs, 0) == 32
    ensures cs == 6 ==> Single(cs, 0) == 32 && Single(cs, 1) == 34 && Single(cs, 2) == 39
    ensures cs == 11 ==> Single(cs, 0) == 120
  {}

  lemma RangeChoice(cs: nat, ch: byte, j: nat)
    requires 1 <= cs < STATES && NoSingle(cs, ch) && j < RangeLength(cs) && InRange(cs, j, ch)
    ensures Indicies(IndexOffset(cs) + SingleLength(cs) + j) == Choice(cs, ch)
  {
    hide NoSingle, Single;
    NoSingles(cs, ch);
  }

  ghost predicate NoRange(cs: nat, ch: byte) {
    forall i :: 0 <= i < RangeLength(cs) ==> !InRange(cs, i, ch)
  }

  ghost predicate InRanges(cs: nat, ch: byte) {
    match cs
    case 1 => Letter(ch)
    case 2 => 9 <= ch <= 13 || Letter(ch)
    case 3 => 9 <= ch <= 13
    case 4 => 9 <= ch <= 13 || 49 <= ch <= 57
    case 5 => 9 <= ch <= 13 || Digit(ch) || Letter(ch)
    case 6 => 9 <= ch <= 13 || Digit(ch) || Letter(ch)
    case 8 => HexDigit(ch)
    case 9 => false
    case 12 => HexDigit(ch)
    case _ => Digit(ch)
  }

  lemma NoRanges(cs: nat, ch: byte)
    requires 1 <= cs < STATES && NoRange(cs, ch)
    ensures !InRanges(cs, ch)
  {
    hide Low, High, InRange;
    RangeKeys(cs, ch);
  }

  lemma RangeKeys(cs: nat, ch: byte)
    requires 1 <= cs < STATES
    ensures cs != 9 ==> RangeLength(cs) > 0
    ensures InRanges(cs, ch) ==>
              InRange(cs, 0, ch) || (RangeLength(cs) > 1 && InRange(cs, 1, ch)) || (RangeLength(cs) > 2 && InRange(cs, 2, ch))
              || (RangeLength(cs) > 3 && InRange(cs, 3, ch))
  {
    hide RangeLength, InRange;
    if cs <= 4 {
      RangeKeys1(cs, ch);
    } else if cs <= 6 {
      RangeKeys5(cs, ch);
    } else if cs <= 9 {
      RangeKeys7(cs, ch);
    } else {
      RangeKeys10(cs, ch);
    }
  }

  lemma RangeKeys1(cs: nat, ch: byte)
    requires 1 <= cs <= 4
    ensures cs != 9 ==> RangeLength(cs) > 0
    ensures InRanges(cs, ch) ==>
              InRange(cs, 0, ch) || (RangeLength(cs) > 1 && InRange(cs, 1, ch)) || (RangeLength(cs) > 2 && InRange(cs, 2, ch))
              || (RangeLength(cs) > 3 && InRange(cs, 3, ch))
  {
    match cs
    case 1 => assert Low(1, 0) == 65 && High(1, 0) == 90 && Low(1, 1) == 97 && High(1, 1) == 122;
    case 2 => assert Low(2, 0) == 9 && High(2, 0) == 13 && Low(2, 1) == 65 && High(2, 1) == 90 && Low(2, 2) == 97 && High(2, 2) == 122;
    case 3 => assert Low(3, 0) == 9 && High(3, 0) == 13;
    case 4 => assert Low(4, 0) == 9 && High(4, 0) == 13 && Low(4, 1) == 49 && High(4, 1) == 57;
    case _ =>
  }

  lemma RangeKeys5(cs: nat, ch: byte)
    requires 5 <= cs <= 6
    ensures cs != 9 ==> RangeLength(cs) > 0
    ensures InRanges(cs, ch) ==>
              InRange(cs, 0, ch) || (RangeLength(cs) > 1 && InRange(cs, 1, ch)) || (RangeLength(cs) > 2 && InRange(cs, 2, ch))
              || (RangeLength(cs) > 3 && InRange(cs, 3, ch))
  {
    match cs
    case 5 => assert Low(5, 0) == 9 && High(5, 0) == 13 && Low(5, 1) == 48 && High(5, 1) == 57 && Low(5, 2) == 65 && High(5, 2) == 90 && Low(5, 3) == 97 && High(5, 3) == 122;
    case 6 => assert Low(6, 0) == 9 && High(6, 0) == 13 && Low(6, 1) == 48 && High(6, 1) == 57 && Low(6, 2) == 65 && High(6, 2) == 90 && Low(6, 3) == 97 && High(6, 3) == 122;
    case _ =>
  }

  lemma RangeKeys7(cs: nat, ch: byte)
    requires 7 <= cs <= 9
    ensures cs != 9 ==> RangeLength(cs) > 0
    ensures InRanges(cs, ch) ==>
              InRange(cs, 0, ch) || (RangeLength(cs) > 1 && InRange(cs, 1, ch)) || (RangeLength(cs) > 2 && InRange(cs, 2, ch))
              || (RangeLength(cs) > 3 && InRange(cs, 3, ch))
  {
    match cs
    case 7 => assert Low(7, 0) == 48 && High(7, 0) == 57;
    case 8 => assert Low(8, 0) == 48 && High(8, 0) == 57 && Low(8, 1) == 65 && High(8, 1) == 70 && Low(8, 2) == 97 && High(8, 2) == 102;
    case _ =>
  }

  lemma RangeKeys10(cs: nat, ch: byte)
    requires 10 <= cs < STATES
    ensures cs != 9 ==> RangeLength(cs) > 0
    ensures InRanges(cs, ch) ==>
              InRange(cs, 0, ch) || (RangeLength(cs) > 1 && InRange(cs, 1, ch)) || (RangeLength(cs) > 2 && InRange(cs, 2, ch))
              || (RangeLength(cs) > 3 && InRange(cs, 3, ch))
  {
    match cs
    case 10 => assert Low(10, 0) == 48 && High(10, 0) == 57;
    case 11 => assert Low(11, 0) == 48 && High(11, 0) == 57;
    case 12 => assert Low(12, 0) == 48 && High(12, 0) == 57 && Low(12, 1) == 65 && High(12, 1) == 70 && Low(12, 2) == 97 && High(12, 2) == 102;
    case _ =>
  }

  lemma NoMatch(cs: nat)
    requires 1 <= cs < STATES
    ensures Indicies(IndexOffset(cs) + SingleLength(cs) + RangeLength(cs)) == 1
  {}

  lemma NoChoice(cs: nat, ch: byte)
    requires 1 <= cs < STATES && NoSingle(cs, ch) && NoRange(cs, ch)
    ensures Indicies(IndexOffset(cs) + SingleLength(cs) + RangeLength(cs)) == Choice(cs, ch)
  {
    hide NoSingle, NoRange, Indicies, IndexOffset, SingleLength, RangeLength;
    NoSingles(cs, ch);
    NoRanges(cs, ch);
    NoMatch(cs);
  }

  /** The search for a transition: single keys first, then ranges, then the one for no match. */
  method Transition(cs: nat, ch: byte) returns (t: nat)
    requires 1 <= cs < STATES
    ensures t == Choice(cs, ch)
  {
    hide Single, InRange, Choice, NoRange, NoSingle, Indicies, IndexOffset, SingleLength, RangeLength;
    var j := FindSingle(cs, ch);
    if j < SingleLength(cs) {
      SingleChoice(cs, ch, j);
      return Indicies(IndexOffset(cs) + j);
    }
    NoSingleMeans(cs, ch);
    var k := FindRange(cs, ch);
    if k < RangeLength(cs) {
      RangeChoice(cs, ch, k);
      return Indicies(IndexOffset(cs) + SingleLength(cs) + k);
    }
    NoRangeMeans(cs, ch);
    NoChoice(cs, ch);
    t := Indicies(IndexOffset(cs) + SingleLength(cs) + RangeLength(cs));
  }

  lemma NoSingleMeans(cs: nat, ch: byte)
    requires forall i :: 0 <= i < SingleLength(cs) ==> Single(cs, i) != ch
    ensures NoSingle(cs, ch)
  {}

  lemma NoRangeMeans(cs: nat, ch: byte)
    requires forall i :: 0 <= i < RangeLength(cs) ==> !InRange(cs, i, ch)
    ensures NoRange(cs, ch)
  {}

  // ----- what an assignment means

  datatype Class = Letters | Blanks | TextChars

  predicate In(c: Class, ch: byte) {
    match c
    case Letters => Letter(ch)
    case Blanks => Blank(ch)
    case TextChars => TextChar(ch)
  }

  /** Where a run of characters of a class ends. */
  function Span(s: seq<byte>, i: nat, c: Class): (r: nat)
    requires i <= |s|
    ensures i <= r <= |s| && (r < |s| ==> !In(c, s[r]))
    ensures forall k :: i <= k < r ==> In(c, s[k])
    decreases |s| - i
  {
    if i < |s| && In(c, s[i]) then Span(s, i + 1, c) else i
  }

  lemma {:induction false} SpanIs(s: seq<byte>, i: nat, c: Class, r: nat)
    requires i <= r <= |s| && (r < |s| ==> !In(c, s[r])) && forall k :: i <= k < r ==> In(c, s[k])
    ensures Span(s, i, c) == r
    decreases r - i
  {
    hide In;
    if i < r {
      SpanIs(s, i + 1, c, r);
    }
  }

  /** A run up to `p` goes on to where it ends. */
  lemma SpanPast(s: seq<byte>, i: nat, c: Class, p: nat)
    requires i <= p <= |s| && forall k :: i <= k < p ==> In(c, s[k])
    ensures p <= Span(s, i, c)
  {
    hide In;
    var r := Span(s, i, c);
  }

  /** Nothing, a number that begins at `at`, or a quoted text from `from` to `to`, for a name of `name` letters. */
  datatype Meaning = Nothing | Number(name: nat, at: nat) | Quoted(name: nat, from: nat, to: nat)

  /** Where the value begins, if a name, an equals sign and something more are there. */
  function ValueAt(s: seq<byte>): Option<nat> {
    var a := Span(s, 0, Letters);
    var b := Span(s, a, Blanks);
    if a == 0 || b == |s| || s[b] != EQUALS then None
    else
      var c := Span(s, b + 1, Blanks);
      if c == |s| then None else Some(c)
  }

  function MeaningOf(s: seq<byte>): Meaning {
    match ValueAt(s)
    case None => Nothing
    case Some(c) =>
      var a := Span(s, 0, Letters);
      if c >= |s| then Nothing
      else if Sign(s[c]) || Digit(s[c]) then Number(a, c)
      else if Quote(s[c]) then
        var d := Span(s, c + 1, TextChars);
        if d > c + 1 && d < |s| && Quote(s[d]) then Quoted(a, c + 1, d) else Nothing
      else Nothing
  }

  /** A name is reported when what ends its letters is a blank or an equals sign. */
  predicate Named(s: seq<byte>) {
    var a := Span(s, 0, Letters);
    0 < a < |s| && (Blank(s[a]) || s[a] == EQUALS)
  }

  // ----- the language

  ghost predicate AllIn(s: seq<byte>, c: Class) {
    forall k :: 0 <= k < |s| ==> In(c, s[k])
  }

  /** A name, blanks, an equals sign, blanks, and a value. */
  ghost predicate Assignment(s: seq<byte>, name: seq<byte>, gap: seq<byte>, space: seq<byte>, value: seq<byte>) {
    && s == name + gap + [EQUALS] + space + value
    && name != [] && AllIn(name, Letters) && AllIn(gap, Blanks) && AllIn(space, Blanks) && Value(value)
  }

  /** A sign, a digit, or a non-empty text between quotes. */
  ghost predicate Value(value: seq<byte>) {
    || (|value| == 1 && (Sign(value[0]) || Digit(value[0])))
    || (|value| > 2 && Quote(value[0]) && AllIn(value[1..|value| - 1], TextChars) && Quote(value[|value| - 1]))
  }

  lemma Apart(ch: byte)
    ensures Letter(ch) ==> !Blank(ch) && ch != EQUALS && !Sign(ch) && !Digit(ch) && !Quote(ch)
    ensures Blank(ch) ==> ch != EQUALS && !Sign(ch) && !Digit(ch) && !Quote(ch)
    ensures Quote(ch) ==> !Sign(ch) && !Digit(ch) && !TextChar(ch)
    ensures ch == EQUALS ==> !Letter(ch) && !Blank(ch)
    ensures ch == 48 ==> Digit(ch)
  {}

  /** A string that begins with an assignment means one. */
  lemma AssignmentMeans(s: seq<byte>, name: seq<byte>, gap: seq<byte>, space: seq<byte>, value: seq<byte>, rest: seq<byte>)
    requires Assignment(s, name, gap, space, value)
    ensures var c := |name| + |gap| + 1 + |space|;
            MeaningOf(s + rest) == if |value| == 1 then Number(|name|, c) else Quoted(|name|, c + 1, c + |value| - 1)
  {
    hide Letter, Blank, Quote, Sign, Digit, TextChar, Assignment, Span;
    var all := s + rest;
    var a := |name|;
    var b := a + |gap|;
    var c := b + 1 + |space|;
    Spread(s, name, gap, space, value, rest);
    SpanIs(all, 0, Letters, a);
    SpanIs(all, a, Blanks, b);
    SpanIs(all, b + 1, Blanks, c);
    if |value| > 1 {
      SpanIs(all, c + 1, TextChars, c + |value| - 1);
    }
  }

  /** The parts of an assignment, in place. */
  lemma Spread(s: seq<byte>, name: seq<byte>, gap: seq<byte>, space: seq<byte>, value: seq<byte>, rest: seq<byte>)
    requires Assignment(s, name, gap, space, value)
    ensures var all, a, b := s + rest, |name|, |name| + |gap|;
            var c := b + 1 + |space|;
            && c + |value| <= |all| && |value| > 0 && 0 < a
            && (forall k :: 0 <= k < a ==> Letter(all[k])) && !Letter(all[a])
            && (forall k :: a <= k < b ==> Blank(all[k])) && all[b] == EQUALS && !Blank(all[b])
            && (forall k :: b + 1 <= k < c ==> Blank(all[k])) && !Blank(all[c])
            && (|value| == 1 ==> Sign(all[c]) || Digit(all[c]))
            && (|value| != 1 ==>
                  |value| > 2 && Quote(all[c]) && !Sign(all[c]) && !Digit(all[c]) && Quote(all[c + |value| - 1])
                  && !TextChar(all[c + |value| - 1]) && forall k :: c + 1 <= k < c + |value| - 1 ==> TextChar(all[k]))
  {
    hide Letter, Blank, Quote, Sign, Digit, TextChar;
    var all, a, b := s + rest, |name|, |name| + |gap|;
    var c := b + 1 + |space|;
    assert all[..a] == name && all[a..b] == gap && all[b] == EQUALS && all[b + 1..c] == space && all[c..c + |value|] == value;
    forall k | 0 <= k < a ensures Letter(all[k]) {
      assert all[k] == name[k];
      assert In(Letters, name[k]);
    }
    forall k | a <= k < b ensures Blank(all[k]) {
      assert all[k] == gap[k - a];
      assert In(Blanks, gap[k - a]);
    }
    forall k | b + 1 <= k < c ensures Blank(all[k]) {
      assert all[k] == space[k - b - 1];
      assert In(Blanks, space[k - b - 1]);
    }
    assert all[c] == value[0] && all[c + |value| - 1] == value[|value| - 1];
    Apart(all[a]);
    Apart(all[b]);
    Apart(all[c]);
    Apart(all[c + |value| - 1]);
    if |value| != 1 {
      forall k | c + 1 <= k < c + |value| - 1 ensures TextChar(all[k]) {
        assert all[k] == value[1..|value| - 1][k - c - 1];
        assert In(TextChars, value[1..|value| - 1][k - c - 1]);
      }
    }
  }

  /** How much of a string the assignment in it takes. */
  function Extent(m: Meaning): nat
    requires m != Nothing
  {
    match m
    case Number(_, at) => at + 1
    case Quoted(_, _, to) => to + 1
  }

  lemma MeaningParts(s: seq<byte>)
    requires MeaningOf(s) != Nothing
    ensures var m := MeaningOf(s);
            var a := Span(s, 0, Letters);
            var b := Span(s, a, Blanks);
            0 < a <= b < |s| && s[b] == EQUALS && var c := Span(s, b + 1, Blanks);
            && c < Extent(m) <= |s|
            && (m.Number? ==> m == Number(a, c) && (Sign(s[c]) || Digit(s[c])))
            && (m.Quoted? ==>
                  c + 1 < m.to < |s| && m == Quoted(a, c + 1, m.to) && Quote(s[c]) && Quote(s[m.to])
                  && forall k :: c + 1 <= k < m.to ==> In(TextChars, s[k]))
  {
    hide Letter, Blank, Quote, Sign, Digit, TextChar, In;
  }

  lemma SliceIn(s: seq<byte>, i: nat, j: nat, c: Class)
    requires i <= j <= |s| && forall k :: i <= k < j ==> In(c, s[k])
    ensures AllIn(s[i..j], c)
  {
    hide In;
  }

  lemma FiveParts(s: seq<byte>, a: nat, b: nat, c: nat, e: nat)
    requires a <= b < c <= e <= |s|
    ensures s[..e] == s[..a] + s[a..b] + [s[b]] + s[b + 1..c] + s[c..e]
  {}

  lemma ValueIn(s: seq<byte>, c: nat, e: nat)
    requires c < e <= |s|
    requires if e == c + 1 then Sign(s[c]) || Digit(s[c])
             else c + 2 < e && Quote(s[c]) && Quote(s[e - 1]) && forall k :: c + 1 <= k < e - 1 ==> In(TextChars, s[k])
    ensures Value(s[c..e])
  {
    hide Quote, Sign, Digit, In, AllIn;
    assert s[c..e][0] == s[c] && s[c..e][e - c - 1] == s[e - 1];
    if e > c + 1 {
      SliceIn(s, c + 1, e - 1, TextChars);
      Inner(s, c, e);
    }
  }

  lemma Inner(s: seq<byte>, c: nat, e: nat)
    requires c + 2 <= e <= |s|
    ensures s[c..e][1..e - c - 1] == s[c + 1..e - 1]
  {
    var v := s[c..e];
    var x, y := v[1..e - c - 1], s[c + 1..e - 1];
    assert |x| == |y|;
    forall k | 0 <= k < |x| ensures x[k] == y[k] {
      assert x[k] == v[k + 1] == s[c + 1 + k];
    }
  }

  /** The first `k` characters are an assignment. */
  ghost predicate HasAssignment(s: seq<byte>, k: nat) {
    k <= |s| && exists name, gap, space, value :: Assignment(s[..k], name, gap, space, value)
  }

  lemma PrefixAssigns(s: seq<byte>, k: nat, name: seq<byte>, gap: seq<byte>, space: seq<byte>, value: seq<byte>)
    requires k <= |s| && Assignment(s[..k], name, gap, space, value)
    ensures HasAssignment(s, k)
  {
    hide Assignment;
  }

  /** A string that means something begins with an assignment. */
  lemma MeaningAssigns(s: seq<byte>)
    requires MeaningOf(s) != Nothing
    ensures HasAssignment(s, Extent(MeaningOf(s)))
  {
    hide Quote, Sign, Digit, In, MeaningOf, AllIn, Span, Value;
    MeaningParts(s);
    var a := Span(s, 0, Letters);
    var b := Span(s, a, Blanks);
    var c := Span(s, b + 1, Blanks);
    var e := Extent(MeaningOf(s));
    FiveParts(s, a, b, c, e);
    SliceIn(s, 0, a, Letters);
    SliceIn(s, a, b, Blanks);
    SliceIn(s, b + 1, c, Blanks);
    assert s[0..a] == s[..a];
    ValueIn(s, c, e);
    PrefixAssigns(s, e, s[..a], s[a..b], s[b + 1..c], s[c..e]);
  }

  /** A string means something exactly when some prefix of it is an assignment. */
  lemma MeansIff(s: seq<byte>)
    ensures MeaningOf(s) != Nothing <==> exists k: nat :: HasAssignment(s, k)
  {
    hide MeaningOf, Assignment;
    if MeaningOf(s) != Nothing {
      MeaningAssigns(s);
    }
    if k: nat :| HasAssignment(s, k) {
      var name, gap, space, value :| Assignment(s[..k], name, gap, space, value);
      AssignmentMeans(s[..k], name, gap, space, value, s[k..]);
      assert s[..k] + s[k..] == s;
    }
  }

  // ----- the machine

  datatype Kind = ValNone | ValInt | ValStr

  /** The parser's variables; `name` is NULL until it is reported. */
  datatype Vars = Vars(nameStart: nat, name: Option<nat>, nameEnd: nat, valueStart: nat, valueEnd: nat, kind: Kind)

  function Do(v: Vars, action: nat, p: nat): Vars {
    match action
    case 0 => v.(nameStart := p)
    case 1 => v.(name := Some(v.nameStart), nameEnd := p)
    case 2 => v.(valueStart := p)
    case 3 => v.(valueEnd := p, kind := ValInt)
    case 4 => v.(valueStart := p)
    case 5 => v.(valueEnd := p, kind := ValStr)
    case _ => v
  }

  /** What the actions of a transition do. */
  function Effect(v: Vars, t: nat, p: nat): Vars {
    match t
    case 0 => v.(nameStart := p)
    case 2 => v.(name := Some(v.nameStart), nameEnd := p)
    case 3 => v.(name := Some(v.nameStart), nameEnd := p)
    case 8 => v.(valueStart := p, valueEnd := p, kind := ValInt)
    case 9 => v.(valueStart := p, valueEnd := p, kind := ValInt)
    case 10 => v.(valueStart := p, valueEnd := p, kind := ValInt)
    case 11 => v.(valueStart := p)
    case 13 => v.(valueEnd := p, kind := ValStr)
    case 14 => v.(valueEnd := p, kind := ValInt)
    case 15 => v.(valueEnd := p, kind := ValInt)
    case 16 => v.(valueEnd := p, kind := ValInt)
    case _ => v
  }

  lemma EffectIs(v: Vars, t: nat, p: nat)
    requires t <= 16
    ensures var acts := TransAction(t);
            Effect(v, t, p) == if acts == 0 then v
                               else if Action(acts) == 1 then Do(v, Action(acts + 1), p)
                               else Do(Do(v, Action(acts + 1), p), Action(acts + 2), p)
    ensures TransAction(t) != 0 ==> 1 <= Action(TransAction(t)) <= 2
  {}

  /** The action loop. */
  method RunActions(v: Vars, t: nat, p: nat) returns (w: Vars)
    requires t <= 16
    ensures w == Effect(v, t, p)
  {
    hide TransAction, Action, Effect, Do;
    EffectIs(v, t, p);
    w := v;
    if TransAction(t) == 0 {
      return;
    }
    var acts := TransAction(t);
    var nacts := Action(acts);
    ghost var n := nacts;
    acts := acts + 1;
    while nacts > 0
      invariant 0 <= nacts <= n && acts == TransAction(t) + 1 + (n - nacts)
      invariant n == 1 || n == 2
      invariant w == if nacts == n then v
                     else if n - nacts == 1 then Do(v, Action(TransAction(t) + 1), p)
                     else Do(Do(v, Action(TransAction(t) + 1), p), Action(TransAction(t) + 2), p)
    {
      w := Do(w, Action(acts), p);
      acts, nacts := acts + 1, nacts - 1;
    }
  }

  // ----- what each state knows

  /** After the name: where its letters end, and that it has been reported. */
  ghost predicate AfterName(s: seq<byte>, p: nat, v: Vars) {
    var a := Span(s, 0, Letters);
    0 < a < |s| && Named(s) && a <= p && v.name == Some(0) && v.nameEnd == a
  }

  /** Past the equals sign, which is at the end of the blanks after the name. */
  ghost predicate AfterEquals(s: seq<byte>, p: nat, v: Vars) {
    var b := Span(s, Span(s, 0, Letters), Blanks);
    AfterName(s, p, v) && b < p <= |s| && s[b] == EQUALS
  }

  /** Past the first character of the value, at `c`. */
  ghost predicate AtValue(s: seq<byte>, p: nat, v: Vars, c: nat) {
    AfterEquals(s, p, v) && ValueAt(s) == Some(c) && c < p
  }

  /** What state `cs` knows of a string of which `p` characters are read. */
  ghost predicate Knows(s: seq<byte>, p: nat, cs: nat, v: Vars) {
    p <= |s| &&
    match cs
    case 1 => p == 0 && v.name == None && v.kind == ValNone
    case 2 => 0 < p <= Span(s, 0, Letters) && v.nameStart == 0 && v.name == None && v.kind == ValNone
    case 3 => AfterName(s, p, v) && p <= Span(s, Span(s, 0, Letters), Blanks) && v.kind == ValNone
    case 4 => AfterEquals(s, p, v) && p <= Span(s, Span(s, Span(s, 0, Letters), Blanks) + 1, Blanks) && v.kind == ValNone
    case 5 => p > 0 && AtValue(s, p, v, p - 1) && Quote(s[p - 1]) && v.kind == ValNone
    case 6 =>
      && v.valueStart > 0 && AtValue(s, p, v, v.valueStart - 1) && Quote(s[v.valueStart - 1])
      && v.valueStart < p <= Span(s, v.valueStart, TextChars) && v.kind == ValNone
    case 9 => MeaningOf(s) == Quoted(v.nameEnd, v.valueStart, v.valueEnd) && AfterEquals(s, p, v) && v.kind == ValStr
    case _ => (cs == 7 || cs == 8 || (10 <= cs < STATES)) && MeaningOf(s) == Number(v.nameEnd, v.valueStart) && AfterEquals(s, p, v) && v.kind == ValInt
  }

  /** What the parser has found, and all it should have. */
  ghost predicate Found(s: seq<byte>, v: Vars) {
    && (match MeaningOf(s)
        case Nothing => v.kind == ValNone
        case Number(a, c) => v.kind == ValInt && v.valueStart == c && v.nameEnd == a
        case Quoted(a, c, d) => v.kind == ValStr && v.valueStart == c && v.valueEnd == d && v.nameEnd == a)
    && (Named(s) <==> v.name.Some?)
    && (v.name.Some? ==> v.name == Some(0) && v.nameEnd == Span(s, 0, Letters))
  }

  /** The string is over, or the state has no transition for its next character. */
  ghost predicate Stuck(s: seq<byte>, p: nat, cs: nat) {
    p == |s| || (p < |s| && Choice(cs, s[p]) == 1)
  }

  lemma StopName(s: seq<byte>, p: nat, cs: nat, v: Vars)
    requires (cs == 1 || cs == 2) && Knows(s, p, cs, v) && Stuck(s, p, cs)
    ensures Found(s, v)
  {
    hide Letter, Blank;
    var a := Span(s, 0, Letters);
    if p < |s| {
      Apart(s[p]);
    }
    assert cs == 2 ==> p == a;
    assert cs == 1 ==> a == 0;
  }

  lemma StopEquals(s: seq<byte>, p: nat, v: Vars)
    requires Knows(s, p, 3, v) && Stuck(s, p, 3)
    ensures Found(s, v)
  {
    hide Letter, Blank;
    var b := Span(s, Span(s, 0, Letters), Blanks);
    assert p == b;
  }

  lemma StopValue(s: seq<byte>, p: nat, v: Vars)
    requires Knows(s, p, 4, v) && Stuck(s, p, 4)
    ensures Found(s, v)
  {
    hide Letter, Blank, Quote, Sign, TextChar;
    var c := Span(s, Span(s, Span(s, 0, Letters), Blanks) + 1, Blanks);
    assert p == c;
  }

  lemma StopText(s: seq<byte>, p: nat, cs: nat, v: Vars)
    requires (cs == 5 || cs == 6) && Knows(s, p, cs, v) && Stuck(s, p, cs)
    ensures Found(s, v)
  {
    hide Letter, Blank, Quote, Sign, TextChar, Span, Named;
    var c := if cs == 5 then p - 1 else v.valueStart - 1;
    Apart(s[c]);
    SpanFrom(s, c + 1, p);
  }

  lemma SpanFrom(s: seq<byte>, i: nat, p: nat)
    requires i <= p <= |s| && (i == p || p <= Span(s, i, TextChars))
    ensures p < |s| && !TextChar(s[p]) ==> Span(s, i, TextChars) == p
    ensures p < |s| && TextChar(s[p]) ==> p < Span(s, i, TextChars)
    ensures p == |s| ==> Span(s, i, TextChars) == p
  {}

  lemma StopDone(s: seq<byte>, p: nat, cs: nat, v: Vars)
    requires 7 <= cs < STATES && Knows(s, p, cs, v)
    ensures Found(s, v)
  {
    hide Span, MeaningOf, Named;
  }

  /** A state that cannot go on has found everything there is. */
  lemma Stop(s: seq<byte>, p: nat, cs: nat, v: Vars)
    requires 1 <= cs < STATES && Knows(s, p, cs, v) && Stuck(s, p, cs)
    ensures Found(s, v)
  {
    hide Knows, Found, Stuck;
    if cs <= 2 {
      StopName(s, p, cs, v);
    } else if cs == 3 {
      StopEquals(s, p, v);
    } else if cs == 4 {
      StopValue(s, p, v);
    } else if cs <= 6 {
      StopText(s, p, cs, v);
    } else {
      StopDone(s, p, cs, v);
    }
  }

  lemma GoName(s: seq<byte>, p: nat, cs: nat, v: Vars, t: nat)
    requires (cs == 1 || cs == 2) && Knows(s, p, cs, v) && p < |s| && t == Choice(cs, s[p]) && t != 1
    ensures t <= 16 && 1 <= TransTarg(t) < STATES && Knows(s, p + 1, TransTarg(t), Effect(v, t, p))
  {
    hide Letter, Blank;
    Apart(s[p]);
    var a := Span(s, 0, Letters);
    if Letter(s[p]) {
      SpanPast(s, 0, Letters, p + 1);
    } else {
      assert p == a;
    }
  }

  lemma GoEquals(s: seq<byte>, p: nat, v: Vars, t: nat)
    requires Knows(s, p, 3, v) && p < |s| && t == Choice(3, s[p]) && t != 1
    ensures t <= 16 && 1 <= TransTarg(t) < STATES && Knows(s, p + 1, TransTarg(t), Effect(v, t, p))
  {
    hide Letter, Blank, Named;
    Apart(s[p]);
    var a := Span(s, 0, Letters);
    if Blank(s[p]) {
      SpanPast(s, a, Blanks, p + 1);
    } else {
      assert p == Span(s, a, Blanks);
    }
  }

  lemma GoValue(s: seq<byte>, p: nat, v: Vars, t: nat)
    requires Knows(s, p, 4, v) && p < |s| && t == Choice(4, s[p]) && t != 1
    ensures t <= 16 && 1 <= TransTarg(t) < STATES && Knows(s, p + 1, TransTarg(t), Effect(v, t, p))
  {
    hide Letter, Blank, Named, Quote, Sign;
    Apart(s[p]);
    var b := Span(s, Span(s, 0, Letters), Blanks);
    if Blank(s[p]) {
      SpanPast(s, b + 1, Blanks, p + 1);
    } else {
      assert p == Span(s, b + 1, Blanks);
    }
  }

  lemma GoText(s: seq<byte>, p: nat, cs: nat, v: Vars, t: nat)
    requires (cs == 5 || cs == 6) && Knows(s, p, cs, v) && p < |s| && t == Choice(cs, s[p]) && t != 1
    ensures t <= 16 && 1 <= TransTarg(t) < STATES && Knows(s, p + 1, TransTarg(t), Effect(v, t, p))
  {
    hide Letter, Blank, Quote, Sign, TextChar, Span, Named;
    var c := if cs == 5 then p - 1 else v.valueStart - 1;
    Apart(s[c]);
    Apart(s[p]);
    SpanFrom(s, c + 1, p);
  }

  lemma GoNumber(s: seq<byte>, p: nat, cs: nat, v: Vars, t: nat)
    requires 7 <= cs < STATES && Knows(s, p, cs, v) && p < |s| && t == Choice(cs, s[p]) && t != 1
    ensures t <= 16 && 1 <= TransTarg(t) < STATES && Knows(s, p + 1, TransTarg(t), Effect(v, t, p))
  {
    hide Digit, HexDigit, Span, Named, MeaningOf;
  }

  /** A transition keeps what is known. */
  lemma Go(s: seq<byte>, p: nat, cs: nat, v: Vars, t: nat)
    requires 1 <= cs < STATES && Knows(s, p, cs, v) && p < |s| && t == Choice(cs, s[p]) && t != 1
    ensures t <= 16 && 1 <= TransTarg(t) < STATES && Knows(s, p + 1, TransTarg(t), Effect(v, t, p))
  {
    hide Knows, Choice, TransTarg, Effect;
    if cs <= 2 {
      GoName(s, p, cs, v, t);
    } else if cs == 3 {
      GoEquals(s, p, v, t);
    } else if cs == 4 {
      GoValue(s, p, v, t);
    } else if cs <= 6 {
      GoText(s, p, cs, v, t);
    } else {
      GoNumber(s, p, cs, v, t);
    }
  }

  // ----- integers

  /** Where the number at `i` goes on after its sign. */
  function PastSign(s: seq<byte>, i: nat): (j: nat)
    requires i <= |s|
    ensures i <= j <= |s| && j <= i + 1
  {
    if i < |s| && Sign(s[i]) then i + 1 else i
  }

  /** A number with "0x" in front of a hexadecimal digit. */
  predicate IsHex(s: seq<byte>, i: nat)
    requires i <= |s|
  {
    var j := PastSign(s, i);
    j + 2 < |s| && s[j] == 48 && (s[j + 1] == 120 || s[j + 1] == 88) && HexDigit(s[j + 2])
  }

  function BaseOf(s: seq<byte>, i: nat): (base: nat)
    requires i <= |s|
    ensures base == 8 || base == 10 || base == 16
  {
    var j := PastSign(s, i);
    if IsHex(s, i) then 16 else if j < |s| && s[j] == 48 then 8 else 10
  }

  function FirstDigit(s: seq<byte>, i: nat): (k: nat)
    requires i <= |s|
    ensures i <= k <= |s|
  {
    if IsHex(s, i) then PastSign(s, i) + 2 else PastSign(s, i)
  }

  predicate Negative(s: seq<byte>, i: nat)
    requires i <= |s|
  {
    i < |s| && s[i] == 45
  }

  /** strtol in base 0, from a character on: a sign, "0x" or "0" or nothing, and digits, cut to a 32-bit integer. */
  function StrToL(s: seq<byte>, i: nat): int
    requires i <= |s|
  {
    Signed(Negative(s, i), Digits(s, FirstDigit(s, i), BaseOf(s, i), 0))
  }

  /** A number with its sign, cut to 32 bits. */
  function Signed(negative: bool, n: nat): int {
    var m: int := n;
    Clamp(if negative then -m else m)
  }

  function Clamp(n: int): (r: int)
    ensures -0x8000_0000 <= r < 0x8000_0000
  {
    if n < -0x8000_0000 then -0x8000_0000 else if n >= 0x8000_0000 then 0x7fff_ffff else n
  }

  function DigitValue(ch: byte): nat {
    if Digit(ch) then ch - 48 else if 97 <= ch <= 122 then ch - 87 else if Letter(ch) then ch - 55 else 36
  }

  function Digits(s: seq<byte>, i: nat, base: nat, n: nat): nat
    requires i <= |s|
    decreases |s| - i
  {
    if i < |s| && DigitValue(s[i]) < base then Digits(s, i + 1, base, n * base + DigitValue(s[i])) else n
  }

  // ----- what of a number lies before an end

  /** Where the run of digits ends. */
  function RunEnd(s: seq<byte>, k: nat, base: nat): (r: nat)
    requires k <= |s|
    ensures k <= r <= |s| && (r < |s| ==> DigitValue(s[r]) >= base)
    ensures forall m :: k <= m < r ==> DigitValue(s[m]) < base
    decreases |s| - k
  {
    if k < |s| && DigitValue(s[k]) < base then RunEnd(s, k + 1, base) else k
  }

  /** The value of the digits from `k` up to `m`, after a number `n`. */
  function DigitsTo(s: seq<byte>, k: nat, m: nat, base: nat, n: nat): nat
    requires k <= m <= |s|
    decreases m - k
  {
    if k < m then DigitsTo(s, k + 1, m, base, n * base + DigitValue(s[k])) else n
  }

  lemma {:induction false} DigitsSplit(s: seq<byte>, k: nat, l: nat, m: nat, base: nat, n: nat)
    requires k <= l <= m <= |s|
    ensures DigitsTo(s, k, m, base, n) == DigitsTo(s, l, m, base, DigitsTo(s, k, l, base, n))
    decreases l - k
  {
    hide DigitValue;
    if k < l {
      DigitsSplit(s, k + 1, l, m, base, n * base + DigitValue(s[k]));
    }
  }

  /** Reading digits is taking the value of the run, in a string or in a prefix of it. */
  lemma {:induction false} DigitsRun(s: seq<byte>, k: nat, e: nat, base: nat, n: nat)
    requires k <= e <= |s|
    ensures var r := RunEnd(s, k, base);
            Digits(s[..e], k, base, n) == DigitsTo(s, k, if r < e then r else e, base, n)
    decreases e - k
  {
    hide DigitValue;
    if k < e && DigitValue(s[k]) < base {
      assert s[..e][k] == s[k];
      DigitsRun(s, k + 1, e, base, n * base + DigitValue(s[k]));
    }
  }

  lemma Doubled(n: nat, base: nat)
    requires base >= 2
    ensures n * base >= 2 * n
  {}

  /** More digits never make a number smaller, and make one that is not zero larger. */
  lemma {:induction false} DigitsGrow(s: seq<byte>, k: nat, m: nat, base: nat, n: nat)
    requires k <= m <= |s| && base >= 2
    ensures DigitsTo(s, k, m, base, n) >= n
    ensures 0 < n && k < m ==> DigitsTo(s, k, m, base, n) > n
    decreases m - k
  {
    hide DigitValue;
    if k < m {
      Doubled(n, base);
      DigitsGrow(s, k + 1, m, base, n * base + DigitValue(s[k]));
    }
  }

  ghost predicate AllZeros(s: seq<byte>, k: nat, m: nat) {
    k <= m <= |s| && forall l :: k <= l < m ==> s[l] == 48
  }

  lemma {:induction false} DigitsZero(s: seq<byte>, k: nat, m: nat, base: nat)
    requires k <= m <= |s| && base >= 2
    ensures DigitsTo(s, k, m, base, 0) == 0 <==> AllZeros(s, k, m)
    decreases m - k
  {
    if k < m {
      DigitsGrow(s, k + 1, m, base, DigitValue(s[k]));
      DigitsZero(s, k + 1, m, base);
    }
  }

  /** A number this large, or this small, is cut to the last one there is. */
  function Limit(negative: bool): nat {
    if negative then 0x8000_0000 else 0x7fff_ffff
  }

  lemma SignedSame(negative: bool, a: nat, b: nat)
    requires a <= b
    ensures Signed(negative, a) == Signed(negative, b) <==> a == b || a >= Limit(negative)
  {}

  /**
    The number at `i` is what lies of it before `e`: its digits end there, or they all are zeros, or those
    before `e` reach the limit already.
   */
  ghost predicate OwnNumber(s: seq<byte>, i: nat, e: nat)
    requires i <= e <= |s|
  {
    var k, base := FirstDigit(s, i), BaseOf(s, i);
    var r := RunEnd(s, k, base);
    r <= e || AllZeros(s, k, r) || (k <= e && DigitsTo(s, k, e, base, 0) >= Limit(Negative(s, i)))
  }

  /** The sign and the base of a number, seen before an end. */
  lemma SameStart(s: seq<byte>, i: nat, e: nat)
    requires i < e <= |s|
    ensures Negative(s[..e], i) == Negative(s, i) && PastSign(s[..e], i) == PastSign(s, i)
    ensures FirstDigit(s, i) < e ==> IsHex(s[..e], i) == IsHex(s, i) && BaseOf(s[..e], i) == BaseOf(s, i)
    ensures FirstDigit(s, i) < e ==> FirstDigit(s[..e], i) == FirstDigit(s, i)
    ensures FirstDigit(s, i) >= e ==> Digits(s[..e], FirstDigit(s[..e], i), BaseOf(s[..e], i), 0) == 0
    ensures FirstDigit(s, i) >= e && !IsHex(s, i) ==> FirstDigit(s, i) == e
  {
    hide Digits;
    var j := PastSign(s, i);
    if FirstDigit(s, i) >= e {
      assert !IsHex(s[..e], i);
      NothingRead(s[..e], j);
    }
  }

  /** Nothing, a zero, or a zero and an 'x' read as nothing or zero. */
  lemma NothingRead(t: seq<byte>, j: nat)
    requires j <= |t| <= j + 2
    requires j < |t| ==> t[j] == 48
    requires j + 1 < |t| ==> t[j + 1] == 120 || t[j + 1] == 88
    ensures Digits(t, j, 8, 0) == 0 && (j == |t| ==> Digits(t, j, 10, 0) == 0)
  {
    assert j < |t| ==> Digits(t, j + 1, 8, 0) == 0;
  }

  /** The number read at `i` is what lies of it before `e` exactly under that condition. */
  lemma OwnIff(s: seq<byte>, i: nat, e: nat)
    requires i < e <= |s|
    ensures StrToL(s, i) == StrToL(s[..e], i) <==> OwnNumber(s, i, e)
  {
    hide Digits, DigitValue, RunEnd, DigitsTo, BaseOf, FirstDigit, IsHex, Signed, AllZeros, Negative, Limit;
    var k, base, negative := FirstDigit(s, i), BaseOf(s, i), Negative(s, i);
    var r := RunEnd(s, k, base);
    SameStart(s, i, e);
    DigitsRun(s, k, |s|, base, 0);
    assert s[..|s|] == s;
    DigitsZero(s, k, r, base);
    var mine := if k < e then DigitsTo(s, k, if r < e then r else e, base, 0) else 0;
    if k < e {
      DigitsRun(s, k, e, base, 0);
      DigitsSplit(s, k, if r < e then r else e, r, base, 0);
      DigitsGrow(s, if r < e then r else e, r, base, mine);
    }
    NoDigits(s, k, base);
    SignedSame(negative, mine, DigitsTo(s, k, r, base, 0));
    LimitPositive(negative);
  }

  /** Only what is from `k` on matters to the digits there. */
  lemma {:induction false} DigitsSame(s: seq<byte>, t: seq<byte>, k: nat, base: nat, n: nat)
    requires k <= |s| == |t| && forall m :: k <= m < |s| ==> s[m] == t[m]
    ensures Digits(s, k, base, n) == Digits(t, k, base, n)
    decreases |s| - k
  {
    hide DigitValue;
    if k < |s| {
      DigitsSame(s, t, k + 1, base, n * base + DigitValue(s[k]));
    }
  }

  lemma TailSame(s: seq<byte>, t: seq<byte>, i: nat)
    requires i <= |s| == |t| && forall m :: i <= m < |s| ==> s[m] == t[m]
    ensures StrToL(s, i) == StrToL(t, i)
  {
    hide Digits;
    DigitsSame(s, t, FirstDigit(s, i), BaseOf(s, i), 0);
  }

  lemma NoDigits(s: seq<byte>, k: nat, base: nat)
    requires k <= |s|
    ensures DigitsTo(s, k, k, base, 0) == 0
  {}

  lemma LimitPositive(negative: bool)
    ensures Limit(negative) > 0
  {}

  // ----- the parser

  /** What comes back: the result code, the name, the kind of the value, and the value. */
  datatype Output = Output(code: int, name: Option<nat>, kind: Kind, text: nat, integer: int)

  /**
    parse_assignment on the characters of `mem` from `start` to `end`.  The name and a quoted value are
    terminated in place.  The integer is read from where it begins on, wherever that ends: it is the
    assignment's own exactly if the number does not go on past `end` or what follows makes no difference.
   */
  method Parse(mem: array<byte>, start: nat, end: nat) returns (r: Output)
    requires start <= end <= mem.Length
    modifies mem
    ensures var s := old(mem[start..end]);
            && (r.code == 0 <==> MeaningOf(s) != Nothing) && (r.code == 0 || r.code == -1)
            && (r.name == if Named(s) then Some(start) else None)
            && (match MeaningOf(s)
                case Nothing => r.kind == ValNone
                case Number(_, at) =>
                  && at < |s| && r.kind == ValInt && r.integer == StrToL(old(mem[..]), start + at)
                  && (r.integer == StrToL(old(mem[..end]), start + at) <==> OwnNumber(old(mem[..]), start + at, end))
                case Quoted(_, from, _) => r.kind == ValStr && r.text == start + from)
            && mem[..] == Terminated(old(mem[..]), start, if Named(s) then Some(Span(s, 0, Letters)) else None,
                                     if MeaningOf(s).Quoted? then Some(MeaningOf(s).to) else None)
  {
    hide Knows, Choice, TransTarg, Effect, Found, Stuck, MeaningOf, Named, Span, StrToL, OwnNumber;
    ghost var s, was := mem[start..end], mem[..];
    var cs: nat, p: nat := START, start;
    var v := Vars(0, None, 0, 0, 0, ValNone);
    KnowsStart(s, v);
    while p < end && cs != 0
      invariant start <= p <= end && cs < STATES && mem[..] == old(mem[..])
      invariant cs != 0 ==> Knows(s, p - start, cs, v)
      invariant cs == 0 ==> Found(s, v)
      decreases end - p, cs
    {
      assert s[p - start] == mem[p];
      var t := Transition(cs, mem[p]);
      if t == 1 {
        StuckHere(s, p - start, cs);
        Stop(s, p - start, cs, v);
        NoTransition(v, p - start);
      } else {
        Go(s, p - start, cs, v, t);
      }
      ghost var before := cs;
      v := RunActions(v, t, p - start);
      cs := TransTarg(t);
      if cs != 0 {
        p := p + 1;
      }
    }
    if cs != 0 {
      StuckEnd(s, cs);
      Stop(s, p - start, cs, v);
    }
    FoundBounds(s, v);
    if v.name.Some? {
      mem[start + v.nameEnd] := 0;
    }
    r := Output(0, if v.name.Some? then Some(start + v.name.value) else None, v.kind, 0, 0);
    if v.kind == ValStr {
      mem[start + v.valueEnd] := 0;
      r := r.(text := start + v.valueStart);
    } else if v.kind == ValInt {
      AfterTheName(s);
      TailSame(mem[..], was, start + v.valueStart);
      OwnIff(was, start + v.valueStart, end);
      assert was[..end] == old(mem[..end]);
      r := r.(integer := StrToL(mem[..], start + v.valueStart));
    } else {
      r := r.(code := -1);
    }
  }

  /** The memory with terminators after the name and a quoted value. */
  function Terminated(mem: seq<byte>, start: nat, nameEnd: Option<nat>, valueEnd: Option<nat>): (r: seq<byte>)
    ensures |r| == |mem|
  {
    var named := if nameEnd.Some? && start + nameEnd.value < |mem| then mem[start + nameEnd.value := 0] else mem;
    if valueEnd.Some? && start + valueEnd.value < |mem| then named[start + valueEnd.value := 0] else named
  }

  /** A number comes after the name's end. */
  lemma AfterTheName(s: seq<byte>)
    requires MeaningOf(s).Number?
    ensures Named(s) && Span(s, 0, Letters) < MeaningOf(s).at
  {
    hide MeaningOf;
    MeaningParts(s);
  }

  lemma KnowsStart(s: seq<byte>, v: Vars)
    requires v.name == None && v.kind == ValNone
    ensures Knows(s, 0, START, v)
  {}

  lemma StuckHere(s: seq<byte>, p: nat, cs: nat)
    requires p < |s| && Choice(cs, s[p]) == 1
    ensures Stuck(s, p, cs)
  {}

  lemma StuckEnd(s: seq<byte>, cs: nat)
    ensures Stuck(s, |s|, cs)
  {}

  lemma NoTransition(v: Vars, p: nat)
    ensures TransTarg(1) == 0 && Effect(v, 1, p) == v
  {}

  lemma FoundBounds(s: seq<byte>, v: Vars)
    requires Found(s, v)
    ensures (MeaningOf(s) == Nothing <==> v.kind == ValNone) && (MeaningOf(s).Number? <==> v.kind == ValInt)
    ensures MeaningOf(s).Quoted? <==> v.kind == ValStr
    ensures v.name.Some? <==> Named(s)
    ensures v.name.Some? ==> v.name == Some(0) && v.nameEnd == Span(s, 0, Letters) < |s|
    ensures v.kind == ValStr ==> v.valueStart == MeaningOf(s).from && v.valueEnd == MeaningOf(s).to < |s|
    ensures v.kind == ValInt ==> v.valueStart == MeaningOf(s).at < |s|
  {
    hide Span;
  }

  // ----- round trip

  /** The conversion "%d" of a natural number. */
  function Decimal(n: nat): (s: seq<byte>)
    ensures s != [] && AllDigits(s)
    ensures n > 0 ==> s[0] != 48
    ensures n == 0 ==> s == [48]
  {
    if n < 10 then [48 + n] else Decimal(n / 10) + [48 + n % 10]
  }

  predicate AllDigits(s: seq<byte>) {
    forall k :: 0 <= k < |s| ==> Digit(s[k])
  }

  function IntText(n: int): seq<byte> {
    if n < 0 then [45] + Decimal(-n) else Decimal(n)
  }

  function DecimalValue(s: seq<byte>): int {
    if s == [] then 0 else DecimalValue(s[..|s| - 1]) * 10 + (s[|s| - 1] as int - 48)
  }

  lemma {:induction false} DecimalInverse(n: nat)
    ensures DecimalValue(Decimal(n)) == n
  {
    if n >= 10 {
      DecimalInverse(n / 10);
      assert Decimal(n)[..|Decimal(n)| - 1] == Decimal(n / 10);
    }
  }

  /** Reading digits collects their value. */
  lemma {:induction false} DigitsRead(s: seq<byte>, i: nat, j: nat)
    requires i <= j <= |s| && AllDigits(s[i..j])
    ensures DecimalValue(s[i..j]) >= 0 && Digits(s, i, 10, 0) == Digits(s, j, 10, DecimalValue(s[i..j]))
    decreases j
  {
    if i == j {
      assert s[i..j] == [];
    } else {
      var front := s[i..j][..j - i - 1];
      assert front == s[i..j - 1];
      assert forall k :: 0 <= k < |front| ==> front[k] == s[i..j][k];
      DigitsRead(s, i, j - 1);
      assert s[i..j][j - i - 1] == s[j - 1];
      assert Digit(s[j - 1]);
      DigitStep(s, j - 1, DecimalValue(front));
    }
  }

  lemma DigitStep(s: seq<byte>, j: nat, n: nat)
    requires j < |s| && Digit(s[j])
    ensures Digits(s, j, 10, n) == Digits(s, j + 1, 10, n * 10 + (s[j] - 48))
  {}

  /** A printed number and nothing after it reads as the number. */
  lemma PrintedReads(s: seq<byte>, i: nat, n: int)
    requires -0x8000_0000 <= n < 0x8000_0000 && i <= |s| && s[i..] == IntText(n)
    ensures StrToL(s, i) == n
  {
    hide Decimal, DecimalValue, Digits, HexDigit;
    var m: nat := if n < 0 then -n else n;
    var j := if n < 0 then i + 1 else i;
    assert s[j..|s|] == Decimal(m) by {
      assert s[j..|s|] == s[i..][j - i..];
    }
    assert s[j] == s[j..|s|][0] && s[i] == s[i..][0];
    DecimalInverse(m);
    DigitsRead(s, j, |s|);
    DigitsEnd(s, m);
    if m == 0 {
      ZeroRead(s, j);
    }
  }

  lemma DigitsEnd(s: seq<byte>, m: nat)
    ensures Digits(s, |s|, 10, m) == m
  {}

  lemma ZeroRead(s: seq<byte>, j: nat)
    requires j <= |s| && s[j..] == [48]
    ensures |s| == j + 1 && Digits(s, j, 8, 0) == 0
  {
    assert s[j] == s[j..][0];
    assert Digits(s, j + 1, 8, 0) == 0;
  }

  /**
    What follows a printed number in memory makes a difference exactly when it is a digit, except to the
    last numbers of 32 bits; after a zero it does when the octal or hexadecimal digits read on are not all
    zeros.
   */
  lemma ReadsBack(s: seq<byte>, i: nat, n: int)
    requires -0x8000_0000 <= n < 0x8000_0000 && i + |IntText(n)| <= |s| && s[i..i + |IntText(n)|] == IntText(n)
    ensures StrToL(s, i) == n <==> Harmless(s, i, n)
  {
    hide StrToL, IntText, Harmless, OwnNumber;
    var e := i + |IntText(n)|;
    SignOrDigit(n);
    assert s[..e][i..] == s[i..e];
    PrintedReads(s[..e], i, n);
    OwnIff(s, i, e);
    ZeroText();
    if n == 0 {
      OwnZero(s, i);
    } else {
      OwnNonZero(s, i, n);
    }
  }

  lemma ZeroText()
    ensures IntText(0) == [48]
  {}

  /** What may follow the printed number `n`, which begins at `i`. */
  ghost predicate Harmless(s: seq<byte>, i: nat, n: int)
    requires i + |IntText(n)| <= |s|
  {
    var e := i + |IntText(n)|;
    if n == 0 then AllZeros(s, FirstDigit(s, i), RunEnd(s, FirstDigit(s, i), BaseOf(s, i)))
    else e == |s| || !Digit(s[e]) || n == 0x7fff_ffff || n == -0x8000_0000
  }

  lemma OwnZero(s: seq<byte>, i: nat)
    requires i < |s| && |IntText(0)| == 1 && s[i..i + 1] == IntText(0)
    ensures OwnNumber(s, i, i + 1) <==> Harmless(s, i, 0)
  {
    hide RunEnd, DigitsTo, Limit, BaseOf;
    assert s[i] == s[i..i + 1][0] == 48;
    var k, base := FirstDigit(s, i), BaseOf(s, i);
    var r := RunEnd(s, k, base);
    LimitPositive(false);
    LimitPositive(true);
    if k == i {
      DigitsZero(s, i, i + 1, base);
    } else {
      RunLater(s, k);
    }
  }

  /** After "0x" there is a hexadecimal digit. */
  lemma RunLater(s: seq<byte>, k: nat)
    requires k < |s| && HexDigit(s[k])
    ensures RunEnd(s, k, 16) > k
  {}

  lemma OwnNonZero(s: seq<byte>, i: nat, n: int)
    requires -0x8000_0000 <= n < 0x8000_0000 && n != 0
    requires i + |IntText(n)| <= |s| && s[i..i + |IntText(n)|] == IntText(n) && IntText(n) != []
    ensures OwnNumber(s, i, i + |IntText(n)|) <==> Harmless(s, i, n)
  {
    hide RunEnd, DigitsTo, Decimal, DecimalValue, DigitValue, HexDigit, Digits;
    var m: nat := if n < 0 then -n else n;
    var j, e := if n < 0 then i + 1 else i, i + |IntText(n)|;
    assert s[j..e] == Decimal(m) by {
      assert s[j..e] == s[i..e][j - i..];
    }
    assert s[j] == s[j..e][0] && s[i] == s[i..e][0];
    RunDecimal(s, j, e);
    DecimalInverse(m);
    DigitsRead(s, j, e);
    DigitsToEnd(s, j, e);
  }

  /** A run of decimal digits up to `e` ends there exactly when no digit follows. */
  lemma RunDecimal(s: seq<byte>, j: nat, e: nat)
    requires j < e <= |s| && AllDigits(s[j..e])
    ensures RunEnd(s, j, 10) >= e && (RunEnd(s, j, 10) <= e <==> e == |s| || !Digit(s[e]))
  {
    hide DigitValue;
    DigitBelow();
    forall k | j <= k < e ensures DigitValue(s[k]) < 10 {
      assert s[k] == s[j..e][k - j];
    }
  }

  lemma DigitBelow()
    ensures forall ch: byte :: DigitValue(ch) < 10 <==> Digit(ch)
  {}

  lemma {:induction false} DigitsToEnd(s: seq<byte>, j: nat, e: nat)
    requires j <= e <= |s| && AllDigits(s[j..e])
    ensures DecimalValue(s[j..e]) >= 0 && DigitsTo(s, j, e, 10, 0) == DecimalValue(s[j..e])
    decreases e
  {
    hide DigitValue;
    if j < e {
      var front := s[j..e][..e - j - 1];
      assert front == s[j..e - 1];
      assert forall k :: 0 <= k < |front| ==> front[k] == s[j..e][k];
      DigitsToEnd(s, j, e - 1);
      assert s[j..e][e - j - 1] == s[e - 1];
      assert Digit(s[e - 1]);
      DigitsSplit(s, j, e - 1, e, 10, 0);
      OneDigit(s, e - 1, DecimalValue(front));
    } else {
      assert s[j..e] == [];
    }
  }

  lemma OneDigit(s: seq<byte>, k: nat, n: nat)
    requires k < |s| && Digit(s[k])
    ensures DigitsTo(s, k, k + 1, 10, n) == n * 10 + (s[k] as int - 48)
  {
    assert DigitsTo(s, k + 1, k + 1, 10, n * 10 + DigitValue(s[k])) == n * 10 + DigitValue(s[k]);
  }

  /** A printed assignment of a number. */
  function Printed(name: seq<byte>, n: int): seq<byte> {
    name + [EQUALS] + IntText(n)
  }

  lemma PrintedMeans(name: seq<byte>, n: int)
    requires name != [] && AllIn(name, Letters)
    ensures var s := Printed(name, n); MeaningOf(s) == Number(|name|, |name| + 1) && Named(s) && Span(s, 0, Letters) == |name|
  {
    hide MeaningOf, Named, Span, IntText;
    SignOrDigit(n);
    AssignedMeans(name, IntText(n));
  }

  /** A name of letters, an equals sign and anything that begins as a number does. */
  lemma AssignedMeans(name: seq<byte>, text: seq<byte>)
    requires name != [] && AllIn(name, Letters) && text != [] && (Sign(text[0]) || Digit(text[0]))
    ensures var s := name + [EQUALS] + text;
            MeaningOf(s) == Number(|name|, |name| + 1) && Named(s) && Span(s, 0, Letters) == |name|
  {
    hide Letter, Digit, Sign, MeaningOf;
    var s := name + [EQUALS] + text;
    assert s == name + [] + [EQUALS] + [] + text[..1] + text[1..];
    assert Assignment(name + [] + [EQUALS] + [] + text[..1], name, [], [], text[..1]);
    AssignmentMeans(name + [] + [EQUALS] + [] + text[..1], name, [], [], text[..1], text[1..]);
    forall k | 0 <= k < |name| ensures In(Letters, s[k]) {
      assert s[k] == name[k];
      assert In(Letters, name[k]);
    }
    assert s[|name|] == EQUALS;
    Apart(EQUALS);
    SpanIs(s, 0, Letters, |name|);
  }

  lemma SignOrDigit(n: int)
    ensures IntText(n) != [] && (Sign(IntText(n)[0]) || Digit(IntText(n)[0]))
  {}

  /**
    A printed assignment of a letters-only name and a 32-bit number parses back to both, the number exactly
    when what follows it in memory is harmless.
   */
  method ParsePrinted(mem: array<byte>, start: nat, end: nat, ghost name: seq<byte>, ghost n: int) returns (r: Output)
    requires start <= end <= mem.Length && mem[start..end] == Printed(name, n)
    requires name != [] && AllIn(name, Letters) && -0x8000_0000 <= n < 0x8000_0000
    modifies mem
    ensures r.code == 0 && r.name == Some(start) && r.kind == ValInt
    ensures start + |name| < mem.Length && mem[start..start + |name|] == name && mem[start + |name|] == 0
    ensures end - |IntText(n)| >= 0 && (r.integer == n <==> Harmless(old(mem[..]), end - |IntText(n)|, n))
  {
    hide MeaningOf, Named, Span, StrToL, AllIn, IntText, Harmless, OwnNumber;
    ghost var was := mem[..];
    PrintedMeans(name, n);
    r := Parse(mem, start, end);
    var i := start + |name| + 1;
    assert was[start..end] == Printed(name, n);
    assert mem[..] == was[start + |name| := 0];
    assert was[i..end] == was[start..end][|name| + 1..] == IntText(n);
    ReadsBack(was, i, n);
    assert mem[start..start + |name|] == was[start..end][..|name|];
  }

  // ----- numbers in any base

  /** The character for a digit, in either case. */
  ghost predicate IsDigit(ch: byte, d: nat) {
    d < 16 && (ch == "0123456789abcdef"[d] as int || ch == "0123456789ABCDEF"[d] as int)
  }

  /** A number without its last digit in a base. */
  function Front(n: nat, base: nat): (r: nat)
    requires base >= 2
    ensures (n >= base ==> r < n) && (n < base ==> r == 0)
  {
    Doubled(n / base, base);
    n / base
  }

  function LastOf(n: nat, base: nat): (d: nat)
    requires base >= 2
    ensures d < base && n == Front(n, base) * base + d
  {
    n % base
  }

  /** The digits of a number in a base, most significant first, with any zeros in front. */
  ghost predicate Spells(digits: seq<byte>, n: nat, base: nat)
    requires base >= 2
  {
    if digits == [] then n == 0
    else IsDigit(digits[|digits| - 1], LastOf(n, base)) && Spells(digits[..|digits| - 1], Front(n, base), base)
  }

  /** What stands in front of the digits: "0x" or "0X", "0", or nothing when they do not begin with a zero. */
  ghost predicate Prefixes(prefix: seq<byte>, digits: seq<byte>, base: nat) {
    && digits != []
    && (|| (base == 16 && (prefix == ['0' as int, 'x' as int] || prefix == ['0' as int, 'X' as int]))
        || (base == 8 && prefix == ['0' as int])
        || (base == 10 && prefix == [] && digits[0] != '0' as int))
  }

  ghost predicate IsSign(sign: seq<byte>) {
    sign == [] || sign == ['+' as int] || sign == ['-' as int]
  }

  /** The number `n` with its sign, or the last one there is in 32 bits. */
  ghost function Cut(sign: seq<byte>, n: nat): int {
    var m: int := n;
    if sign == ['-' as int] then if m > 0x8000_0000 then -0x8000_0000 else -m
    else if m > 0x7fff_ffff then 0x7fff_ffff else m
  }

  lemma DigitMeaning(ch: byte)
    ensures DigitValue(ch) < 16 ==> IsDigit(ch, DigitValue(ch))
    ensures forall d: nat :: IsDigit(ch, d) ==> DigitValue(ch) == d && HexDigit(ch) && (d < 10 ==> Digit(ch))
  {}

  /** Digits that spell a number have its value. */
  lemma {:induction false} SpelledDigits(s: seq<byte>, k: nat, m: nat, n: nat, base: nat)
    requires k <= m <= |s| && base >= 2 && Spells(s[k..m], n, base)
    ensures DigitsTo(s, k, m, base, 0) == n && forall l :: k <= l < m ==> DigitValue(s[l]) < base
    decreases m
  {
    hide DigitValue, IsDigit, DigitsTo, Front, LastOf;
    if k < m {
      SpellsLast(s, k, m, n, base);
      SpelledDigits(s, k, m - 1, Front(n, base), base);
      DigitsSplit(s, k, m - 1, m, base, 0);
      LastDigit(s, m - 1, base, Front(n, base));
    } else {
      NoDigits(s, k, base);
    }
  }

  lemma SpellsLast(s: seq<byte>, k: nat, m: nat, n: nat, base: nat)
    requires k < m <= |s| && base >= 2 && Spells(s[k..m], n, base)
    ensures Spells(s[k..m - 1], Front(n, base), base) && DigitValue(s[m - 1]) == LastOf(n, base)
  {
    hide DigitValue, IsDigit, Front, LastOf;
    var digits := s[k..m];
    assert digits[..|digits| - 1] == s[k..m - 1] && digits[|digits| - 1] == s[m - 1];
    DigitMeaning(s[m - 1]);
  }

  lemma LastDigit(s: seq<byte>, k: nat, base: nat, n: nat)
    requires k < |s|
    ensures DigitsTo(s, k, k + 1, base, n) == n * base + DigitValue(s[k])
  {
    hide DigitValue;
    assert DigitsTo(s, k + 1, k + 1, base, n * base + DigitValue(s[k])) == n * base + DigitValue(s[k]);
  }

  /** No digit of the base follows. */
  ghost predicate Ends(s: seq<byte>, e: nat, base: nat) {
    e < |s| ==> forall d :: 0 <= d < base ==> !IsDigit(s[e], d)
  }

  /** Digits of a base that end read as the number they spell. */
  lemma SpelledRead(s: seq<byte>, k: nat, e: nat, n: nat, base: nat)
    requires k <= e <= |s| && 2 <= base <= 16 && Spells(s[k..e], n, base) && Ends(s, e, base)
    ensures Digits(s, k, base, 0) == n
  {
    hide DigitValue, IsDigit, Spells, Digits, DigitsTo;
    SpelledDigits(s, k, e, n, base);
    if e < |s| {
      DigitMeaning(s[e]);
    }
    assert RunEnd(s, k, base) == e;
    DigitsRun(s, k, |s|, base, 0);
    assert s[..|s|] == s;
  }

  /** Where the parts of a number lie. */
  lemma PartsAt(s: seq<byte>, i: nat, e: nat, sign: seq<byte>, prefix: seq<byte>, digits: seq<byte>)
    requires i <= e <= |s| && s[i..e] == sign + prefix + digits && digits != []
    ensures e - |digits| == i + |sign| + |prefix| && s[e - |digits|..e] == digits
    ensures sign != [] ==> s[i] == sign[0]
    ensures |prefix| > 0 ==> s[i + |sign|] == prefix[0]
    ensures |prefix| > 1 ==> s[i + |sign| + 1] == prefix[1]
    ensures s[e - |digits|] == digits[0]
  {
    var text := s[i..e];
    assert forall l :: 0 <= l < |text| ==> s[i + l] == text[l];
    assert text[|sign| + |prefix|..] == digits;
  }

  /** What the sign and the prefix say. */
  lemma PrefixRead(s: seq<byte>, i: nat, e: nat, sign: seq<byte>, prefix: seq<byte>, digits: seq<byte>, n: nat, base: nat)
    requires i <= e <= |s| && s[i..e] == sign + prefix + digits && IsSign(sign)
    requires Prefixes(prefix, digits, base) && Spells(digits, n, base)
    ensures Negative(s, i) <==> sign == ['-' as int]
    ensures BaseOf(s, i) == base
    ensures FirstDigit(s, i) == i + |sign| + if base == 16 then 2 else 0
  {
    hide DigitValue, IsDigit, Spells, Negative, PastSign, HexDigit;
    SpelledFirst(digits, n, base);
    PartsAt(s, i, e, sign, prefix, digits);
    SignRead(s, i, sign, if base == 10 then digits[0] else 48);
  }

  lemma SignRead(s: seq<byte>, i: nat, sign: seq<byte>, next: byte)
    requires IsSign(sign) && i + |sign| < |s| && s[i + |sign|] == next && Digit(next) && (sign != [] ==> s[i] == sign[0])
    ensures PastSign(s, i) == i + |sign| && (Negative(s, i) <==> sign == ['-' as int])
  {}

  /** The first of the digits is one of the base. */
  lemma {:induction false} SpelledFirst(digits: seq<byte>, n: nat, base: nat)
    requires base >= 2 && digits != [] && Spells(digits, n, base)
    ensures DigitValue(digits[0]) < base && HexDigit(digits[0]) && (base <= 10 ==> Digit(digits[0]))
  {
    hide DigitValue, IsDigit, Front, LastOf, Digit, HexDigit;
    DigitMeaning(digits[0]);
    if |digits| > 1 {
      SpelledFirst(digits[..|digits| - 1], Front(n, base), base);
    }
  }

  /** A number of any base, sign and spelling reads as what it spells. */
  lemma SpelledReads(s: seq<byte>, i: nat, e: nat, sign: seq<byte>, prefix: seq<byte>, digits: seq<byte>, n: nat, base: nat)
    requires i <= e <= |s| && s[i..e] == sign + prefix + digits && IsSign(sign)
    requires Prefixes(prefix, digits, base) && Spells(digits, n, base) && Ends(s, e, base)
    ensures StrToL(s, i) == Cut(sign, n)
  {
    hide DigitValue, IsDigit, Spells, Ends, BaseOf, FirstDigit, Negative, Digits, IsSign;
    PrefixRead(s, i, e, sign, prefix, digits, n, base);
    PartsAt(s, i, e, sign, prefix, digits);
    var k := e - |digits|;
    SpelledRead(s, k, e, n, base);
    if base == 8 {
      ZeroFirst(s, k - 1);
    }
  }

  lemma ZeroFirst(s: seq<byte>, k: nat)
    requires k < |s| && s[k] == 48
    ensures Digits(s, k, 8, 0) == Digits(s, k + 1, 8, 0)
  {}

  /**
    A letters-only name assigned a number in any base, sign and spelling parses to both: always when no digit
    of the base follows in memory, and otherwise exactly when what follows makes no difference.
   */
  method ParseSpelled(mem: array<byte>, start: nat, end: nat, ghost name: seq<byte>, ghost sign: seq<byte>,
                      ghost prefix: seq<byte>, ghost digits: seq<byte>, ghost n: nat, ghost base: nat) returns (r: Output)
    requires start <= end <= mem.Length && mem[start..end] == name + [EQUALS] + (sign + prefix + digits)
    requires name != [] && AllIn(name, Letters) && IsSign(sign) && Prefixes(prefix, digits, base) && Spells(digits, n, base)
    modifies mem
    ensures r.code == 0 && r.name == Some(start) && r.kind == ValInt
    ensures start + |name| < mem.Length && mem[start..start + |name|] == name && mem[start + |name|] == 0
    ensures Ends(old(mem[..]), end, base) ==> r.integer == Cut(sign, n)
    ensures start + |name| + 1 <= end && (r.integer == Cut(sign, n) <==> OwnNumber(old(mem[..]), start + |name| + 1, end))
  {
    hide MeaningOf, Named, Span, StrToL, AllIn, OwnNumber, Spells, Ends, Cut, IsDigit;
    ghost var was, text := mem[..], sign + prefix + digits;
    StartsAsNumber(sign, prefix, digits, n, base);
    AssignedMeans(name, text);
    r := Parse(mem, start, end);
    var i := start + |name| + 1;
    assert was[start..end] == name + [EQUALS] + text;
    assert mem[..] == was[start + |name| := 0];
    assert was[i..end] == was[start..end][|name| + 1..] == text;
    assert mem[start..start + |name|] == was[start..end][..|name|];
    SpelledHere(was, i, end, sign, prefix, digits, n, base);
  }

  lemma StartsAsNumber(sign: seq<byte>, prefix: seq<byte>, digits: seq<byte>, n: nat, base: nat)
    requires IsSign(sign) && Prefixes(prefix, digits, base) && Spells(digits, n, base)
    ensures var text := sign + prefix + digits; text != [] && (Sign(text[0]) || Digit(text[0]))
  {
    hide Spells, DigitValue;
    SpelledFirst(digits, n, base);
  }

  /** Such a number in memory is read as what it spells exactly when it is its own. */
  lemma SpelledHere(s: seq<byte>, i: nat, e: nat, sign: seq<byte>, prefix: seq<byte>, digits: seq<byte>, n: nat, base: nat)
    requires i <= e <= |s| && s[i..e] == sign + prefix + digits && IsSign(sign)
    requires Prefixes(prefix, digits, base) && Spells(digits, n, base)
    ensures StrToL(s, i) == Cut(sign, n) <==> OwnNumber(s, i, e)
    ensures Ends(s, e, base) ==> StrToL(s, i) == Cut(sign, n)
  {
    hide StrToL, OwnNumber, Spells, Cut, IsDigit;
    assert s[..e][i..e] == s[i..e];
    SpelledReads(s[..e], i, e, sign, prefix, digits, n, base);
    OwnIff(s, i, e);
    if Ends(s, e, base) {
      SpelledReads(s, i, e, sign, prefix, digits, n, base);
    }
  }

  function DigitFor(d: nat, upper: bool): (ch: byte)
    requires d < 16
    ensures IsDigit(ch, d)
  {
    if upper then "0123456789ABCDEF"[d] as int else "0123456789abcdef"[d] as int
  }

  /** The conversions "%o", "%x" and "%X" of a natural number, and "%d". */
  function Numeral(n: nat, base: nat, upper: bool): (s: seq<byte>)
    requires 2 <= base <= 16
    ensures s != []
  {
    (if n < base then [] else Numeral(Front(n, base), base, upper)) + [DigitFor(LastOf(n, base), upper)]
  }

  lemma {:induction false} NumeralSpells(n: nat, base: nat, upper: bool)
    requires 2 <= base <= 16
    ensures Spells(Numeral(n, base, upper), n, base)
  {
    hide IsDigit, DigitFor, Front, LastOf;
    var s := Numeral(n, base, upper);
    if n >= base {
      NumeralSpells(Front(n, base), base, upper);
      assert s[..|s| - 1] == Numeral(Front(n, base), base, upper);
    } else {
      assert s[..|s| - 1] == [];
    }
  }

  /** A number printed in base 16 or 8, with its prefix. */
  function BasedText(n: int, hex: bool, upper: bool): seq<byte> {
    var sign: seq<byte> := if n < 0 then ['-' as int] else [];
    var prefix: seq<byte> := if hex then ['0' as int, if upper then 'X' as int else 'x' as int] else ['0' as int];
    sign + prefix + Numeral(if n < 0 then -n else n, if hex then 16 else 8, upper)
  }

  /** Printed in hexadecimal or octal digits, every 32-bit number comes back when no digit of the base follows. */
  method ParseBased(mem: array<byte>, start: nat, end: nat, ghost name: seq<byte>, ghost n: int, ghost hex: bool, ghost upper: bool)
      returns (r: Output)
    requires start <= end <= mem.Length && mem[start..end] == name + [EQUALS] + BasedText(n, hex, upper)
    requires name != [] && AllIn(name, Letters) && -0x8000_0000 <= n < 0x8000_0000
    requires Ends(mem[..], end, if hex then 16 else 8)
    modifies mem
    ensures r.code == 0 && r.name == Some(start) && r.kind == ValInt && r.integer == n
    ensures start + |name| < mem.Length && mem[start..start + |name|] == name && mem[start + |name|] == 0
  {
    hide AllIn, Spells, Ends, Numeral, OwnNumber;
    ghost var m: nat, base := if n < 0 then -n else n, if hex then 16 else 8;
    ghost var sign: seq<byte> := if n < 0 then ['-' as int] else [];
    ghost var prefix: seq<byte> := if hex then ['0' as int, if upper then 'X' as int else 'x' as int] else ['0' as int];
    NumeralSpells(m, base, upper);
    r := ParseSpelled(mem, start, end, name, sign, prefix, Numeral(m, base, upper), m, base);
  }

  /** A digit past the end is read as well: of "a=1" in memory before a "2", twelve. */
  method ReadsPastEnd() returns (r: Output)
    ensures r.code == 0 && r.integer == 12
  {
    var mem := new byte[4];
    mem[0], mem[1], mem[2], mem[3] := 97, EQUALS, 49, 50;
    assert mem[0..3] == Printed([97], 1);
    PrintedMeans([97], 1);
    assert mem[..] == [97, EQUALS, 49, 50];
    r := Parse(mem, 0, 3);
    TwelveRead();
  }

  lemma TwelveRead()
    ensures StrToL([97, EQUALS, 49, 50], 2) == 12
  {
    var s: seq<byte> := [97, EQUALS, 49, 50];
    assert Digits(s, 4, 10, 12) == 12;
    assert Digits(s, 3, 10, 1) == 12;
  }

  /** A failure can still report a name, as "a=?" does. */
  lemma NamedOnFailure()
    ensures var s: seq<byte> := [97, EQUALS, 63]; MeaningOf(s) == Nothing && Named(s)
  {
    var s: seq<byte> := [97, EQUALS, 63];
    SpanIs(s, 0, Letters, 1);
    SpanIs(s, 1, Blanks, 1);
    SpanIs(s, 2, Blanks, 2);
  }

  /** A sign alone is a number, as in "a=+", and is read as 0. */
  lemma SignWithoutDigits()
    ensures var s: seq<byte> := [97, EQUALS, 43]; MeaningOf(s) == Number(1, 2) && StrToL(s, 2) == 0
  {
    var s: seq<byte> := [97, EQUALS, 43];
    SpanIs(s, 0, Letters, 1);
    SpanIs(s, 1, Blanks, 1);
    SpanIs(s, 2, Blanks, 2);
  }

  /** A text may end with the other quote, as in a='b" . */
  lemma QuotesDiffer()
    ensures MeaningOf([97, EQUALS, 39, 98, 34]) == Quoted(1, 3, 4)
  {
    var s: seq<byte> := [97, EQUALS, 39, 98, 34];
    SpanIs(s, 0, Letters, 1);
    SpanIs(s, 1, Blanks, 1);
    SpanIs(s, 2, Blanks, 2);
    SpanIs(s, 3, TextChars, 4);
  }
}
