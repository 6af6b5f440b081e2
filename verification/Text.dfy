/** The wrappers and the text operations every parser here is built from: splitting, joining,
    trimming and decimal numbers, with the laws that connect each to its inverse.
 */
module Text {

  datatype Option<+T> = None | Some(value: T) {
    predicate IsFailure() { None? }
    function PropagateFailure<U>(): Option<U> requires None? { None }
    function Extract(): T requires Some? { value }
  }

  datatype Result<+T, +E> = Ok(value: T) | Err(error: E) {
    predicate IsFailure() { Err? }
    function PropagateFailure<U>(): Result<U, E> requires Err? { Err(error) }
    function Extract(): T requires Ok? { value }
  }

  // ---- splitting and joining ----

  /** `str::split` on one element: always at least one piece. */
  function Split<T(==)>(s: seq<T>, sep: T): (pieces: seq<seq<T>>)
    ensures |pieces| > 0
  {
    if s == [] then [[]]
    else
      var rest := Split(s[1..], sep);
      if s[0] == sep then [[]] + rest else [[s[0]] + rest[0]] + rest[1..]
  }

  function Join<T>(pieces: seq<seq<T>>, sep: seq<T>): seq<T> {
    if pieces == [] then []
    else if |pieces| == 1 then pieces[0]
    else pieces[0] + sep + Join(pieces[1..], sep)
  }

  ghost predicate Free<T>(s: seq<T>, sep: T) {
    sep !in s
  }

  ghost predicate AllFree<T>(pieces: seq<seq<T>>, sep: T) {
    forall i :: 0 <= i < |pieces| ==> Free(pieces[i], sep)
  }

  lemma {:induction false} SplitPiecesAreFree<T>(s: seq<T>, sep: T)
    ensures AllFree(Split(s, sep), sep)
  {
    if s != [] { SplitPiecesAreFree(s[1..], sep); }
  }

  /** A piece without the separator, then the separator, splits off whole. */
  lemma {:induction false} SplitHead<T>(piece: seq<T>, tail: seq<T>, sep: T)
    requires Free(piece, sep)
    ensures Split(piece + [sep] + tail, sep) == [piece] + Split(tail, sep)
  {
    if piece == [] {
      assert (piece + [sep] + tail)[1..] == tail;
    } else {
      SplitHead(piece[1..], tail, sep);
      assert (piece + [sep] + tail)[1..] == piece[1..] + [sep] + tail;
      assert [piece[0]] + piece[1..] == piece;
    }
  }

  lemma {:induction false} SplitFree<T>(piece: seq<T>, sep: T)
    requires Free(piece, sep)
    ensures Split(piece, sep) == [piece]
  {
    if piece != [] {
      SplitFree(piece[1..], sep);
      assert [piece[0]] + piece[1..] == piece;
    }
  }

  /** Splitting undoes joining, for pieces that do not contain the separator. */
  lemma {:induction false} SplitOfJoin<T>(pieces: seq<seq<T>>, sep: T)
    requires pieces != [] && AllFree(pieces, sep)
    ensures Split(Join(pieces, [sep]), sep) == pieces
  {
    if |pieces| == 1 {
      SplitFree(pieces[0], sep);
    } else {
      SplitOfJoin(pieces[1..], sep);
      SplitHead(pieces[0], Join(pieces[1..], [sep]), sep);
      assert [pieces[0]] + pieces[1..] == pieces;
    }
  }

  /** Joining undoes splitting, always. */
  lemma {:induction false} JoinOfSplit<T>(s: seq<T>, sep: T)
    ensures Join(Split(s, sep), [sep]) == s
  {
    if s != [] {
      JoinOfSplit(s[1..], sep);
      var rest := Split(s[1..], sep);
      if s[0] == sep {
        assert ([[]] + rest)[1..] == rest;
        assert [] + [sep] + s[1..] == s;
      } else {
        var pieces := [[s[0]] + rest[0]] + rest[1..];
        assert pieces[1..] == rest[1..];
        if |rest| == 1 {
          assert [s[0]] + s[1..] == s;
        } else {
          assert pieces[0] + [sep] + Join(rest[1..], [sep]) == [s[0]] + (rest[0] + [sep] + Join(rest[1..], [sep]));
          assert [s[0]] + s[1..] == s;
        }
      }
    }
  }

  /** Where `split_once` cuts: the position of the first `sep`. */
  function Find<T(==)>(s: seq<T>, sep: T): (at: Option<nat>)
    ensures at.Some? ==> at.value < |s| && s[at.value] == sep && Free(s[..at.value], sep)
    ensures at.None? ==> Free(s, sep)
  {
    if s == [] then None
    else if s[0] == sep then Some(0)
    else
      var rest := Find(s[1..], sep);
      if rest.None? then None
      else
        assert s[..rest.value + 1] == [s[0]] + s[1..][..rest.value];
        Some(rest.value + 1)
  }

  /** `str::split_once`: what comes before and after the first `sep`. */
  function SplitOnce<T(==)>(s: seq<T>, sep: T): Option<(seq<T>, seq<T>)> {
    match Find(s, sep)
    case None => None
    case Some(at) => Some((s[..at], s[at + 1..]))
  }

  lemma SplitOnceIs<T>(s: seq<T>, sep: T)
    requires SplitOnce(s, sep).Some?
    ensures s == SplitOnce(s, sep).value.0 + [sep] + SplitOnce(s, sep).value.1
  {
    var at := Find(s, sep).value;
    assert s == s[..at] + [s[at]] + s[at + 1..];
  }

  lemma {:induction false} SplitOnceAt<T>(head: seq<T>, tail: seq<T>, sep: T)
    requires Free(head, sep)
    ensures SplitOnce(head + [sep] + tail, sep) == Some((head, tail))
  {
    var s := head + [sep] + tail;
    assert s[|head|] == sep;
    var at := Find(s, sep).value;
    assert forall i :: 0 <= i < |head| ==> s[i] == head[i];
    assert s[..at] == head && s[at + 1..] == tail;
  }

  function StripPrefix<T(==)>(s: seq<T>, prefix: seq<T>): Option<seq<T>> {
    if prefix <= s then Some(s[|prefix|..]) else None
  }

  lemma StripPrefixOfConcat<T>(prefix: seq<T>, rest: seq<T>)
    ensures StripPrefix(prefix + rest, prefix) == Some(rest)
  {
    assert (prefix + rest)[..|prefix|] == prefix;
    assert (prefix + rest)[|prefix|..] == rest;
  }

  // ---- trimming ----

  /** Unicode White_Space, which is what `str::trim` removes. */
  predicate IsWhitespace(c: char) {
    var n := c as int;
    0x09 <= n <= 0x0D || n == 0x20 || n == 0x85 || n == 0xA0 || n == 0x1680 || 0x2000 <= n <= 0x200A
    || n == 0x2028 || n == 0x2029 || n == 0x202F || n == 0x205F || n == 0x3000
  }

  ghost predicate AllWhitespace(s: string) {
    forall i :: 0 <= i < |s| ==> IsWhitespace(s[i])
  }

  function TrimStart(s: string): string {
    if s != "" && IsWhitespace(s[0]) then TrimStart(s[1..]) else s
  }

  function TrimEnd(s: string): string {
    if s != "" && IsWhitespace(s[|s| - 1]) then TrimEnd(s[..|s| - 1]) else s
  }

  function Trim(s: string): string {
    TrimEnd(TrimStart(s))
  }

  /** Neither end is white space, or there are no ends. */
  ghost predicate Trimmed(s: string) {
    s == "" || (!IsWhitespace(s[0]) && !IsWhitespace(s[|s| - 1]))
  }

  lemma {:induction false} TrimStartPads(pad: string, s: string)
    requires AllWhitespace(pad)
    ensures TrimStart(pad + s) == TrimStart(s)
  {
    if pad == "" {
      assert pad + s == s;
    } else {
      TrimStartPads(pad[1..], s);
      assert (pad + s)[1..] == pad[1..] + s;
    }
  }

  lemma {:induction false} TrimEndPads(s: string, pad: string)
    requires AllWhitespace(pad)
    ensures TrimEnd(s + pad) == TrimEnd(s)
  {
    if pad == "" {
      assert s + pad == s;
    } else {
      TrimEndPads(s, pad[..|pad| - 1]);
      assert (s + pad)[..|s + pad| - 1] == s + pad[..|pad| - 1];
    }
  }

  lemma {:induction false} TrimStartIsASuffix(s: string)
    ensures TrimStart(s) == "" || !IsWhitespace(TrimStart(s)[0])
    ensures |TrimStart(s)| <= |s| && s[|s| - |TrimStart(s)|..] == TrimStart(s)
  {
    if s != "" && IsWhitespace(s[0]) {
      TrimStartIsASuffix(s[1..]);
      assert s[1..][|s[1..]| - |TrimStart(s)|..] == s[|s| - |TrimStart(s)|..];
    }
  }

  lemma {:induction false} TrimEndIsAPrefix(s: string)
    ensures TrimEnd(s) <= s
    ensures TrimEnd(s) == "" || !IsWhitespace(TrimEnd(s)[|TrimEnd(s)| - 1])
  {
    if s != "" && IsWhitespace(s[|s| - 1]) { TrimEndIsAPrefix(s[..|s| - 1]); }
  }

  lemma TrimIsTrimmed(s: string)
    ensures Trimmed(Trim(s))
    ensures forall c :: c in Trim(s) ==> c in s
  {
    TrimStartIsASuffix(s);
    TrimEndIsAPrefix(TrimStart(s));
  }

  lemma TrimOfTrimmed(s: string)
    requires Trimmed(s)
    ensures Trim(s) == s
  {}

  /** Padding a trimmed text with white space on both sides is undone by trimming. */
  lemma TrimUndoesPadding(left: string, s: string, right: string)
    requires AllWhitespace(left) && AllWhitespace(right) && Trimmed(s) && s != ""
    ensures Trim(left + s + right) == s
  {
    assert left + s + right == left + (s + right);
    TrimStartPads(left, s + right);
    assert TrimStart(s + right) == s + right;
    TrimEndPads(s, right);
  }

  // ---- decimal numbers ----

  predicate IsDigit(c: char) { '0' <= c <= '9' }

  function DigitValue(c: char): nat
    requires IsDigit(c)
  {
    c as int - '0' as int
  }

  function Digit(n: nat): (c: char)
    requires n < 10
    ensures IsDigit(c) && DigitValue(c) == n
  {
    ('0' as int + n) as char
  }

  predicate AllDigits(s: string) {
    forall i :: 0 <= i < |s| ==> IsDigit(s[i])
  }

  /** The number a digit string denotes. */
  function NumberOf(s: string): nat
    requires AllDigits(s)
  {
    if s == "" then 0 else 10 * NumberOf(s[..|s| - 1]) + DigitValue(s[|s| - 1])
  }

  /** `<uN as FromStr>::from_str`: an optional leading `+`, at least one digit, nothing else, and
      a value below `bound`. */
  function ParseUnsigned(s: string, bound: nat): Option<nat> {
    var digits := if s != "" && s[0] == '+' then s[1..] else s;
    if digits != "" && AllDigits(digits) && NumberOf(digits) < bound then Some(NumberOf(digits)) else None
  }

  /** The canonical decimal of a number: what `to_string` and `{}` print. */
  function Decimal(n: nat): (s: string)
    ensures s != "" && AllDigits(s) && NumberOf(s) == n
  {
    if n < 10 then
      var s := [Digit(n)];
      assert s[..0] == "";
      s
    else
      var s := Decimal(n / 10) + [Digit(n % 10)];
      assert s[..|s| - 1] == Decimal(n / 10);
      s
  }

  lemma DecimalParses(n: nat, bound: nat)
    requires n < bound
    ensures ParseUnsigned(Decimal(n), bound) == Some(n)
  {}

  /** The canonical decimal has no leading zero. */
  lemma {:induction false} DecimalHasNoLeadingZero(n: nat)
    ensures |Decimal(n)| > 1 ==> Decimal(n)[0] != '0'
  {
    if n >= 10 {
      DecimalHasNoLeadingZero(n / 10);
      if n / 10 < 10 { assert Decimal(n / 10) == [Digit(n / 10)]; }
      assert Decimal(n)[0] == Decimal(n / 10)[0];
    }
  }

  /** A digit string with no leading zero is the canonical decimal of its number. */
  lemma {:induction false} CanonicalDigits(s: string)
    requires s != "" && AllDigits(s)
    requires |s| == 1 || s[0] != '0'
    ensures s == Decimal(NumberOf(s))
  {
    var front, last := s[..|s| - 1], s[|s| - 1];
    assert s == front + [last];
    if front == "" {
      assert NumberOf(front) == 0;
    } else {
      CanonicalDigits(front);
      PositiveNumber(front);
      var n := NumberOf(s);
      assert n / 10 == NumberOf(front) && n % 10 == DigitValue(last);
      assert Digit(n % 10) == last;
    }
  }

  lemma {:induction false} PositiveNumber(s: string)
    requires s != "" && AllDigits(s) && s[0] != '0'
    ensures NumberOf(s) > 0
  {
    if |s| > 1 { PositiveNumber(s[..|s| - 1]); }
  }

  lemma DecimalIsFreeOf(n: nat, c: char)
    requires !IsDigit(c)
    ensures Free(Decimal(n), c)
  {}

  // ---- numerals ----

  /** The text spells the number: digits, leading zeros and all, with or without a plus. */
  ghost predicate Numeral(s: string, n: nat) {
    IsNumeral(s, n) || (s != "" && s[0] == '+' && IsNumeral(s[1..], n))
  }

  ghost predicate IsNumeral(digits: string, n: nat) {
    digits != "" && AllDigits(digits) && NumberOf(digits) == n
  }

  /** Parsing answers exactly the numbers below the bound that the text spells. */
  lemma ParsesIff(s: string, bound: nat, n: nat)
    ensures ParseUnsigned(s, bound) == Some(n) <==> n < bound && Numeral(s, n)
  {}

  lemma DecimalIsNumeral(n: nat)
    ensures Numeral(Decimal(n), n)
  {}

  lemma NumeralIsFreeOf(s: string, n: nat, c: char)
    requires Numeral(s, n) && !IsDigit(c) && c != '+'
    ensures Free(s, c)
  {
    if s[0] == '+' { assert forall i :: 0 < i < |s| ==> s[i] == s[1..][i - 1]; }
  }

  /** Trimming takes white space off both ends, and nothing else. */
  lemma TrimTakesTheEnds(s: string) returns (left: string, right: string)
    ensures AllWhitespace(left) && AllWhitespace(right) && s == left + Trim(s) + right && Trimmed(Trim(s))
  {
    TrimIsTrimmed(s);
    left := StartTaken(s);
    right := EndTaken(TrimStart(s));
    assert s == left + TrimStart(s) && TrimStart(s) == Trim(s) + right;
  }

  lemma {:induction false} StartTaken(s: string) returns (left: string)
    ensures AllWhitespace(left) && s == left + TrimStart(s)
  {
    if s != "" && IsWhitespace(s[0]) {
      var rest := StartTaken(s[1..]);
      left := [s[0]] + rest;
    } else {
      left := "";
    }
  }

  lemma {:induction false} EndTaken(s: string) returns (right: string)
    ensures AllWhitespace(right) && s == TrimEnd(s) + right
  {
    if s != "" && IsWhitespace(s[|s| - 1]) {
      var rest := EndTaken(s[..|s| - 1]);
      right := rest + [s[|s| - 1]];
    } else {
      right := "";
    }
  }

  // ---- picking elements in order ----

  /** `t` is the elements of `s` that `mask` marks, in order; `from` says where each stood. */
  ghost predicate Picked<T>(s: seq<T>, t: seq<T>, mask: seq<bool>, from: seq<nat>) {
    && |mask| == |s| && |from| == |t|
    && (forall i :: 0 <= i < |t| ==> from[i] < |s| && t[i] == s[from[i]])
    && (forall i, j :: 0 <= i < j < |t| ==> from[i] < from[j])
    && (forall j :: 0 <= j < |s| ==> (j in from <==> mask[j]))
  }

  /** Positions picked from a list without its head, as positions in the whole list. */
  function Shifted(rest: seq<nat>, kept: bool): seq<nat> {
    (if kept then [0] else []) + seq(|rest|, i requires 0 <= i < |rest| => rest[i] + 1)
  }

  lemma ShiftedHolds(rest: seq<nat>, kept: bool, j: nat)
    ensures j in Shifted(rest, kept) <==> if j == 0 then kept else j - 1 in rest
  {
    var from := Shifted(rest, kept);
    if j > 0 && j - 1 in rest {
      var i :| 0 <= i < |rest| && rest[i] == j - 1;
      assert from[|from| - |rest| + i] == j;
    }
    if j == 0 && kept { assert from[0] == 0; }
  }

  lemma PickedWithHead<T>(head: T, s: seq<T>, t: seq<T>, kept: bool, mask: seq<bool>, rest: seq<nat>)
    requires Picked(s, t, mask, rest)
    ensures Picked([head] + s, (if kept then [head] else []) + t, [kept] + mask, Shifted(rest, kept))
  {
    var from := Shifted(rest, kept);
    forall j | 0 <= j < |s| + 1 ensures j in from <==> ([kept] + mask)[j] { ShiftedHolds(rest, kept, j); }
  }

  /** One more element at the end, kept or not. */
  lemma PickedWithLast<T>(s: seq<T>, last: T, t: seq<T>, kept: bool, mask: seq<bool>, from: seq<nat>)
    requires Picked(s, t, mask, from)
    ensures Picked(s + [last], t + (if kept then [last] else []), mask + [kept], from + (if kept then [|s|] else []))
  {
    var longer := from + (if kept then [|s|] else []);
    forall j | 0 <= j < |s| + 1 ensures j in longer <==> (mask + [kept])[j] {
      assert j in longer <==> j in from || (kept && j == |s|);
    }
  }
}
