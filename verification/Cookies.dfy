/** Removing the session cookie from traffic that leaves the admin plane
    (crates/rift-cluster-server/src/admin_front.rs).
 */
module Cookies {
  import opened Text

  const SESSION_COOKIE_NAME: string := "rift_session"
  const COOKIE: string := "cookie"

  /** `HeaderValue::to_str` succeeds: visible ASCII, the space and the tab. */
  predicate Readable(value: string) {
    forall i :: 0 <= i < |value| ==> ' ' <= value[i] <= '~' || value[i] == '\t'
  }

  function TrimAll(pieces: seq<string>): seq<string> {
    if pieces == [] then [] else [Trim(pieces[0])] + TrimAll(pieces[1..])
  }

  /** The `;`-separated pieces of a Cookie header, trimmed. */
  function Pieces(raw: string): seq<string> {
    TrimAll(Split(raw, ';'))
  }

  /** The name before the first `=`, or `None` for a nameless piece. */
  function NameOf(piece: string): Option<string> {
    var (name, _) :- SplitOnce(piece, '=');
    Some(Trim(name))
  }

  predicate IsSessionPair(piece: string) { NameOf(piece) == Some(SESSION_COOKIE_NAME) }

  predicate IsOtherPair(piece: string) { NameOf(piece).Some? && !IsSessionPair(piece) }

  predicate AnySessionPair(pieces: seq<string>) {
    exists i :: 0 <= i < |pieces| && IsSessionPair(pieces[i])
  }

  predicate CarriesToken(raw: string) { AnySessionPair(Pieces(raw)) }

  function OtherPairs(pieces: seq<string>): (kept: seq<string>)
    ensures forall i :: 0 <= i < |kept| ==> IsOtherPair(kept[i]) && kept[i] in pieces
  {
    if pieces == [] then []
    else (if IsOtherPair(pieces[0]) then [pieces[0]] else []) + OtherPairs(pieces[1..])
  }

  /** What becomes of one Cookie header: dropped, forwarded as it is, or rewritten. */
  function Sanitize(raw: string): Option<string> {
    if !Readable(raw) then None
    else if !CarriesToken(raw) then Some(raw)
    else
      var remaining := OtherPairs(Pieces(raw));
      if remaining == [] then None else Some(Join(remaining, "; "))
  }

  function SanitizeAll(values: seq<string>): seq<string> {
    if values == [] then []
    else
      var last := Sanitize(values[|values| - 1]);
      SanitizeAll(values[..|values| - 1]) + (if last.Some? then [last.value] else [])
  }

  /** The first half of `strip_session_cookie`: what is kept of each header, in order. */
  method Kept(cookies: seq<string>) returns (kept: seq<string>)
    ensures kept == SanitizeAll(cookies)
  {
    kept := [];
    for i := 0 to |cookies|
      invariant kept == SanitizeAll(cookies[..i])
    {
      assert cookies[..i + 1][..i] == cookies[..i];
      var value := cookies[i];
      if Readable(value) {
        var pairs := Pieces(value);
        if !AnySessionPair(pairs) {
          kept := kept + [value];
        } else {
          var remaining := OtherPairs(pairs);
          if remaining != [] { kept := kept + [Join(remaining, "; ")]; }
        }
      }
    }
    assert cookies[..|cookies|] == cookies;
  }

  /** The headers of one request: the values of each name, in order. */
  class HeaderMap {
    var values: map<string, seq<string>>

    ghost predicate Valid()
      reads this
    {
      forall name :: name in values ==> values[name] != []
    }

    constructor (initial: map<string, seq<string>>)
      requires forall name :: name in initial ==> initial[name] != []
      ensures Valid() && values == initial
    {
      values := initial;
    }

    function GetAll(name: string): seq<string>
      reads this
    {
      if name in values then values[name] else []
    }

    method Append(name: string, value: string)
      requires Valid()
      modifies this
      ensures Valid() && values == old(values)[name := old(GetAll(name)) + [value]]
    {
      values := values[name := GetAll(name) + [value]];
    }

    /** `strip_session_cookie`: collect what is kept, remove the header, append what was kept. */
    method StripSessionCookie()
      requires Valid()
      modifies this
      ensures Valid()
      ensures GetAll(COOKIE) == SanitizeAll(old(GetAll(COOKIE)))
      ensures values - {COOKIE} == old(values) - {COOKIE}
    {
      var kept := Kept(GetAll(COOKIE));
      values := values - {COOKIE};
      ghost var others := values;
      for i := 0 to |kept|
        invariant Valid() && GetAll(COOKIE) == kept[..i]
        invariant values - {COOKIE} == others
      {
        Append(COOKIE, kept[i]);
        assert kept[..i + 1] == kept[..i] + [kept[i]];
      }
      assert kept[..|kept|] == kept;
    }
  }

  // ---- what a rewritten header reads back as ----

  /** Every piece after the first, with the space that `"; "` puts before it. */
  function Spaced(pieces: seq<string>): seq<string> {
    if pieces == [] then [] else [" " + pieces[0]] + Spaced(pieces[1..])
  }

  lemma {:induction false} JoinSpaced(pieces: seq<string>)
    requires pieces != []
    ensures Join(pieces, "; ") == Join([pieces[0]] + Spaced(pieces[1..]), ";")
    ensures " " + Join(pieces, "; ") == Join(Spaced(pieces), ";")
  {
    var spaced := [pieces[0]] + Spaced(pieces[1..]);
    if |pieces| > 1 {
      JoinSpaced(pieces[1..]);
      assert spaced[1..] == Spaced(pieces[1..]);
      var tail := Join(pieces[1..], "; ");
      assert pieces[0] + "; " + tail == pieces[0] + ";" + (" " + tail);
      assert Spaced(pieces)[1..] == Spaced(pieces[1..]);
      assert " " + (pieces[0] + "; " + tail) == (" " + pieces[0]) + ";" + (" " + tail);
    }
  }

  lemma {:induction false} SpacedIsFree(pieces: seq<string>)
    requires AllFree(pieces, ';')
    ensures AllFree(Spaced(pieces), ';') && |Spaced(pieces)| == |pieces|
  {
    if pieces != [] { SpacedIsFree(pieces[1..]); }
  }

  ghost predicate TrimmedPiece(piece: string) { Trimmed(piece) && piece != "" }

  ghost predicate AllTrimmed(pieces: seq<string>) {
    forall i :: 0 <= i < |pieces| ==> TrimmedPiece(pieces[i])
  }

  lemma {:induction false} TrimUndoesSpaced(pieces: seq<string>)
    requires AllTrimmed(pieces)
    ensures TrimAll(Spaced(pieces)) == pieces
  {
    if pieces != [] {
      TrimUndoesSpaced(pieces[1..]);
      TrimUndoesPadding(" ", pieces[0], "");
      assert " " + pieces[0] + "" == " " + pieces[0];
      assert Spaced(pieces)[1..] == Spaced(pieces[1..]);
    }
  }

  lemma {:induction false} PiecesShape(raws: seq<string>)
    requires AllFree(raws, ';')
    ensures AllFree(TrimAll(raws), ';')
    ensures forall i :: 0 <= i < |TrimAll(raws)| ==> Trimmed(TrimAll(raws)[i])
  {
    if raws != [] {
      PiecesShape(raws[1..]);
      TrimIsTrimmed(raws[0]);
    }
  }

  lemma TrimAllCons(first: string, rest: seq<string>)
    ensures TrimAll([first] + rest) == [Trim(first)] + TrimAll(rest)
  {
    assert ([first] + rest)[1..] == rest;
  }

  lemma SplitOfSpacedJoin(pieces: seq<string>)
    requires pieces != [] && AllFree(pieces, ';')
    ensures Split(Join(pieces, "; "), ';') == [pieces[0]] + Spaced(pieces[1..])
  {
    JoinSpaced(pieces);
    SpacedIsFree(pieces[1..]);
    SplitOfJoin([pieces[0]] + Spaced(pieces[1..]), ';');
  }

  lemma TrimOfSpaced(first: string, rest: seq<string>)
    requires TrimmedPiece(first) && AllTrimmed(rest)
    ensures TrimAll([first] + Spaced(rest)) == [first] + rest
  {
    TrimAllCons(first, Spaced(rest));
    TrimUndoesSpaced(rest);
    TrimOfTrimmed(first);
  }

  /** Splitting a joined header again finds the pieces that were joined. */
  lemma PiecesOfJoin(pieces: seq<string>)
    requires pieces != [] && AllFree(pieces, ';')
    requires AllTrimmed(pieces)
    ensures Pieces(Join(pieces, "; ")) == pieces
  {
    SplitOfSpacedJoin(pieces);
    TrimOfSpaced(pieces[0], pieces[1..]);
    assert [pieces[0]] + pieces[1..] == pieces;
  }

  lemma OtherPairsShape(raw: string)
    ensures AllFree(OtherPairs(Pieces(raw)), ';')
    ensures AllTrimmed(OtherPairs(Pieces(raw)))
  {
    SplitPiecesAreFree(raw, ';');
    PiecesShape(Split(raw, ';'));
    var kept := OtherPairs(Pieces(raw));
    forall i | 0 <= i < |kept| ensures Free(kept[i], ';') && TrimmedPiece(kept[i]) {
      assert kept[i] in Pieces(raw);
    }
  }

  lemma {:induction false} JoinReadable(pieces: seq<string>)
    requires forall i :: 0 <= i < |pieces| ==> Readable(pieces[i])
    ensures Readable(Join(pieces, "; "))
  {
    if |pieces| > 1 { JoinReadable(pieces[1..]); }
  }

  lemma TrimReadable(s: string)
    requires Readable(s)
    ensures Readable(Trim(s))
  {
    TrimIsTrimmed(s);
    forall i | 0 <= i < |Trim(s)| ensures ' ' <= Trim(s)[i] <= '~' || Trim(s)[i] == '\t' {
      assert Trim(s)[i] in s;
    }
  }

  lemma {:induction false} PiecesReadable(raws: seq<string>)
    requires forall i :: 0 <= i < |raws| ==> Readable(raws[i])
    ensures forall i :: 0 <= i < |TrimAll(raws)| ==> Readable(TrimAll(raws)[i])
  {
    if raws != [] {
      PiecesReadable(raws[1..]);
      TrimReadable(raws[0]);
    }
  }

  lemma {:induction false} SplitReadable(raw: string)
    requires Readable(raw)
    ensures forall i :: 0 <= i < |Split(raw, ';')| ==> Readable(Split(raw, ';')[i])
  {
    if raw != "" { SplitReadable(raw[1..]); }
  }

  // ---- said without the filter ----

  /** The piece is a pair under the name. */
  ghost predicate PairNamed(piece: string, name: string, value: string) {
    Free(name, '=') && piece == name + "=" + value
  }

  ghost predicate IsPairOf(piece: string, called: string) {
    exists name, value :: PairNamed(piece, name, value) && Trim(name) == called
  }

  /** The piece is a pair under some other name than the session's. */
  ghost predicate IsPairOfAnother(piece: string) {
    exists name, value :: PairNamed(piece, name, value) && Trim(name) != "rift_session"
  }

  lemma PairNames(piece: string, name: string, value: string)
    requires PairNamed(piece, name, value)
    ensures NameOf(piece) == Some(Trim(name))
  {
    SplitOnceAt(name, value, '=');
    assert piece == name + ['='] + value;
  }

  lemma NamedIsAPair(piece: string) returns (name: string, value: string)
    requires NameOf(piece).Some?
    ensures PairNamed(piece, name, value) && Some(Trim(name)) == NameOf(piece)
  {
    var at := Find(piece, '=').value;
    name, value := piece[..at], piece[at + 1..];
    assert piece == piece[..at] + [piece[at]] + piece[at + 1..];
  }

  /** A piece is a session pair, or a pair of another name, exactly when it is written as one. */
  lemma PairsAreWritten(piece: string)
    ensures IsSessionPair(piece) <==> IsPairOf(piece, "rift_session")
    ensures IsOtherPair(piece) <==> IsPairOfAnother(piece)
  {
    if NameOf(piece).Some? { var name, value := NamedIsAPair(piece); }
    forall name, value | PairNamed(piece, name, value) ensures NameOf(piece) == Some(Trim(name)) {
      PairNames(piece, name, value);
    }
  }

  ghost function OfAnother(pieces: seq<string>): seq<bool> {
    seq(|pieces|, i requires 0 <= i < |pieces| => IsPairOfAnother(pieces[i]))
  }

  lemma {:induction false} OtherPairsArePicked(pieces: seq<string>) returns (from: seq<nat>)
    ensures Picked(pieces, OtherPairs(pieces), OfAnother(pieces), from)
  {
    if pieces == [] {
      from := [];
    } else {
      var rest := OtherPairsArePicked(pieces[1..]);
      PairsAreWritten(pieces[0]);
      var kept, mask := IsPairOfAnother(pieces[0]), OfAnother(pieces[1..]);
      PickedWithHead(pieces[0], pieces[1..], OtherPairs(pieces[1..]), kept, mask, rest);
      from := Shifted(rest, kept);
      assert [pieces[0]] + pieces[1..] == pieces && [kept] + mask == OfAnother(pieces);
    }
  }

  /** The pieces of a header are what stands between its semicolons, trimmed. */
  lemma {:induction false} PiecesAre(raws: seq<string>)
    ensures |TrimAll(raws)| == |raws| && forall i :: 0 <= i < |raws| ==> TrimAll(raws)[i] == Trim(raws[i])
  {
    if raws != [] { PiecesAre(raws[1..]); }
  }

  /** Some piece of the header is a session pair, as it is written. */
  ghost predicate HoldsToken(raw: string) {
    exists i :: 0 <= i < |Split(raw, ';')| && IsPairOf(Trim(Split(raw, ';')[i]), "rift_session")
  }

  ghost predicate HoldsAnother(raw: string) {
    exists i :: 0 <= i < |Split(raw, ';')| && IsPairOfAnother(Trim(Split(raw, ';')[i]))
  }

  lemma CarriesIsHolds(raw: string)
    ensures CarriesToken(raw) <==> HoldsToken(raw)
    ensures OtherPairs(Pieces(raw)) != [] <==> HoldsAnother(raw)
  {
    PiecesAre(Split(raw, ';'));
    var pieces := Pieces(raw);
    forall i | 0 <= i < |pieces| ensures IsSessionPair(pieces[i]) <==> IsPairOf(pieces[i], "rift_session") { PairsAreWritten(pieces[i]); }
    var from := OtherPairsArePicked(pieces);
    if HoldsAnother(raw) {
      var i :| 0 <= i < |Split(raw, ';')| && IsPairOfAnother(Trim(Split(raw, ';')[i]));
      assert OfAnother(pieces)[i] && i in from;
    }
    if from != [] { assert OfAnother(pieces)[from[0]]; }
  }

  /** A header is dropped exactly when it cannot be read, or holds the token and no other pair; one
      that can be read and does not hold the token is forwarded as it is. */
  lemma DroppedIff(raw: string)
    ensures Sanitize(raw).None? <==> !Readable(raw) || (HoldsToken(raw) && !HoldsAnother(raw))
    ensures Readable(raw) && !HoldsToken(raw) ==> Sanitize(raw) == Some(raw)
  {
    CarriesIsHolds(raw);
  }

  /** A rewritten header, split again, gives exactly the pieces of the original that are pairs of
      another name, each as often as it occurs and in order; and it is still a header a reader
      accepts. */
  lemma RewrittenHoldsTheOtherPairs(raw: string) returns (from: seq<nat>)
    requires Readable(raw) && CarriesToken(raw)
    ensures Sanitize(raw).None? <==> OtherPairs(Pieces(raw)) == []
    ensures Sanitize(raw).Some? ==> Pieces(Sanitize(raw).value) == OtherPairs(Pieces(raw))
    ensures Sanitize(raw).Some? ==> Picked(Pieces(raw), Pieces(Sanitize(raw).value), OfAnother(Pieces(raw)), from)
    ensures Sanitize(raw).Some? ==> Readable(Sanitize(raw).value)
  {
    var kept := OtherPairs(Pieces(raw));
    from := OtherPairsArePicked(Pieces(raw));
    if kept != [] {
      OtherPairsShape(raw);
      PiecesOfJoin(kept);
      SplitReadable(raw);
      PiecesReadable(Split(raw, ';'));
      JoinReadable(kept);
    }
  }

  /** A header that never carried the token is forwarded byte for byte. */
  lemma UncarriedIsUntouched(raw: string)
    requires Readable(raw) && !CarriesToken(raw)
    ensures Sanitize(raw) == Some(raw)
  {}

  /** What is forwarded of one header carries no session pair, and would be forwarded again as it
      is. */
  lemma SanitizedIsClean(raw: string)
    requires Sanitize(raw).Some?
    ensures Readable(Sanitize(raw).value)
    ensures !CarriesToken(Sanitize(raw).value)
    ensures Sanitize(Sanitize(raw).value) == Sanitize(raw)
  {
    if CarriesToken(raw) { var from := RewrittenHoldsTheOtherPairs(raw); }
  }

  /** No forwarded Cookie header holds a session pair, and stripping twice is stripping once. */
  lemma {:induction false} StripIsCleanAndIdempotent(values: seq<string>)
    ensures forall i :: 0 <= i < |SanitizeAll(values)| ==> !CarriesToken(SanitizeAll(values)[i])
    ensures SanitizeAll(SanitizeAll(values)) == SanitizeAll(values)
  {
    if values != [] {
      var front, last := values[..|values| - 1], Sanitize(values[|values| - 1]);
      StripIsCleanAndIdempotent(front);
      if last.Some? {
        SanitizedIsClean(values[|values| - 1]);
        var all := SanitizeAll(values);
        assert all[..|all| - 1] == SanitizeAll(front) && all[|all| - 1] == last.value;
      } else {
        assert SanitizeAll(values) == SanitizeAll(front);
      }
    }
  }

  /** What is left of each header, by position. */
  function Leaves(values: seq<string>): seq<Option<string>> {
    seq(|values|, i requires 0 <= i < |values| => Sanitize(values[i]))
  }

  /** The headers forwarded are those not dropped, in order: the `i`-th forwarded is what is left of
      header `from[i]`. */
  ghost predicate ForwardsFrom(left: seq<Option<string>>, all: seq<string>, from: seq<nat>) {
    && |from| == |all|
    && (forall i, j :: 0 <= i < j < |from| ==> from[i] < from[j])
    && (forall i :: 0 <= i < |from| ==> from[i] < |left| && left[from[i]] == Some(all[i]))
    && (forall j :: 0 <= j < |left| ==> (left[j].Some? <==> j in from))
  }

  lemma ForwardsOneMore(front: seq<Option<string>>, last: Option<string>, all: seq<string>, from: seq<nat>)
    requires ForwardsFrom(front, all, from)
    ensures last.None? ==> ForwardsFrom(front + [last], all, from)
    ensures last.Some? ==> ForwardsFrom(front + [last], all + [last.value], from + [|front|])
  {
    assert forall j :: 0 <= j < |front| ==> (front + [last])[j] == front[j];
    assert forall j: nat :: j in from + [|front|] <==> j in from || j == |front|;
  }

  /** Of several Cookie headers, exactly those not dropped are forwarded, in their order. */
  lemma {:induction false} StripPicks(values: seq<string>) returns (from: seq<nat>)
    ensures ForwardsFrom(Leaves(values), SanitizeAll(values), from)
  {
    from := [];
    if values != [] {
      var front, last := values[..|values| - 1], Sanitize(values[|values| - 1]);
      from := StripPicks(front);
      ForwardsOneMore(Leaves(front), last, SanitizeAll(front), from);
      assert Leaves(values) == Leaves(front) + [last];
      if last.Some? { from := from + [|front|]; }
    }
  }
}
