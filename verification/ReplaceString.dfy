/** `ReplaceString`: search and replace in a string that changes length under the search. */
module ReplaceStrings {
  import opened Options

  predicate OccursAt(s: string, from: string, i: int) {
    0 <= i && i + |from| <= |s| && s[i..i + |from|] == from
  }

  /** `std::string::find`: the first occurrence at or after `pos`; `None` is `npos`. */
  function Find(s: string, from: string, pos: nat): (r: Option<nat>)
    ensures r.Some? ==> pos <= r.value && OccursAt(s, from, r.value)
    ensures r.Some? ==> forall i :: pos <= i < r.value ==> !OccursAt(s, from, i)
    ensures r.None? ==> forall i :: pos <= i ==> !OccursAt(s, from, i)
    decreases |s| - pos
  {
    if pos + |from| > |s| then None
    else if OccursAt(s, from, pos) then Some(pos)
    else Find(s, from, pos + 1)
  }

  // ---------- what it means ----------

  predicate StartsWith(s: string, from: string) {
    |from| <= |s| && s[..|from|] == from
  }

  /** Leftmost substitution, read off the string from left to right. */
  function Substitute(s: string, from: string, to: string): string
    requires from != ""
    decreases |s|
  {
    if s == "" then ""
    else if StartsWith(s, from) then to + Substitute(s[|from|..], from, to)
    else [s[0]] + Substitute(s[1..], from, to)
  }

  /** How many replacements that makes. */
  function Replacements(s: string, from: string): nat
    requires from != ""
    decreases |s|
  {
    if s == "" then 0
    else if StartsWith(s, from) then 1 + Replacements(s[|from|..], from)
    else Replacements(s[1..], from)
  }

  /** The characters it leaves in place. */
  function Kept(s: string, from: string): string
    requires from != ""
    decreases |s|
  {
    if s == "" then ""
    else if StartsWith(s, from) then Kept(s[|from|..], from)
    else [s[0]] + Kept(s[1..], from)
  }

  // ---------- the code ----------

  class Text {
    var chars: string

    constructor (chars: string)
      ensures this.chars == chars
    {
      this.chars := chars;
    }
  }

  lemma FrontOf(s: string, from: string, pos: nat)
    requires from != "" && pos <= |s|
    ensures StartsWith(s[pos..], from) <==> OccursAt(s, from, pos)
    ensures pos + |from| <= |s| ==> s[pos..][|from|..] == s[pos + |from|..]
    ensures pos < |s| ==> s[pos..][0] == s[pos] && s[pos..][1..] == s[pos + 1..]
  {
    if pos + |from| <= |s| {
      assert s[pos..][..|from|] == s[pos..pos + |from|];
    }
  }

  /** A place where `from` occurs is replaced. */
  lemma FoundHere(s: string, from: string, to: string, at: nat)
    requires from != "" && OccursAt(s, from, at)
    ensures Substitute(s[at..], from, to) == to + Substitute(s[at + |from|..], from, to)
    ensures Replacements(s[at..], from) == 1 + Replacements(s[at + |from|..], from)
  {
    FrontOf(s, from, at);
  }

  /** A place where `from` does not occur is passed over. */
  lemma StepOver(s: string, from: string, to: string, pos: nat, at: nat, t: string)
    requires from != "" && pos < at <= |s| && !OccursAt(s, from, pos)
    requires Substitute(s[pos + 1..], from, to) == s[pos + 1..at] + t
    ensures Substitute(s[pos..], from, to) == s[pos..at] + t
    ensures Replacements(s[pos..], from) == Replacements(s[pos + 1..], from)
  {
    FrontOf(s, from, pos);
    assert s[pos..at] + t == [s[pos]] + (s[pos + 1..at] + t);
  }

  /** So is a whole stretch of such places. */
  lemma {:induction false} SkipTo(s: string, from: string, to: string, pos: nat, at: nat)
    requires from != "" && pos <= at <= |s|
    requires forall i :: pos <= i < at ==> !OccursAt(s, from, i)
    ensures Substitute(s[pos..], from, to) == s[pos..at] + Substitute(s[at..], from, to)
    ensures Replacements(s[pos..], from) == Replacements(s[at..], from)
    decreases at - pos
  {
    if pos == at {
      assert s[pos..at] == "";
    } else {
      SkipTo(s, from, to, pos + 1, at);
      StepOver(s, from, to, pos, at, Substitute(s[at..], from, to));
    }
  }

  lemma SliceOfSlice(s: string, at: nat, i: int, n: nat)
    requires 0 <= i && at + i + n <= |s|
    ensures s[at..][i..i + n] == s[at + i..at + i + n]
  {
  }

  /** The text after one turn: what is done, what was skipped and what was put in, then the rest. */
  lemma AfterTurn(before: string, from: string, to: string, pos: nat, at: nat)
    requires pos <= at && at + |from| <= |before|
    ensures var after := before[..at] + to + before[at + |from|..];
            && at + |to| <= |after|
            && after[..at + |to|] == before[..pos] + (before[pos..at] + to)
            && after[at + |to|..] == before[at + |from|..]
  {
  }

  /** Replaces in place. The search goes on behind what it has put in, so the part of the text still
      to be searched shrinks at every turn, even while the text itself grows. */
  method ReplaceString(source: Text, from: string, to: string) returns (ghost turns: nat)
    requires from != ""
    modifies source
    ensures source.chars == Substitute(old(source.chars), from, to)
    ensures turns == Replacements(old(source.chars), from)
  {
    turns := 0;
    var startPos: nat := 0;
    ghost var rest := source.chars;
    while true
      invariant startPos <= |source.chars| && rest == source.chars[startPos..]
      invariant source.chars[..startPos] + Substitute(rest, from, to) == Substitute(old(source.chars), from, to)
      invariant turns + Replacements(rest, from) == Replacements(old(source.chars), from)
      decreases |rest|
    {
      ghost var before := source.chars;
      var found := Find(source.chars, from, startPos);
      if found.None? {
        SkipTo(before, from, to, startPos, |before|);
        assert before[..startPos] + rest == before;
        break;
      }
      var at := found.value;
      SkipTo(before, from, to, startPos, at);
      FoundHere(before, from, to, at);
      AfterTurn(before, from, to, startPos, at);
      source.chars := source.chars[..at] + to + source.chars[at + |from|..];
      rest := before[at + |from|..];
      Reassociate(before[..startPos], before[startPos..at], to, Substitute(rest, from, to));
      startPos := at + |to|;
      turns := turns + 1;
    }
  }

  lemma Reassociate(a: string, b: string, c: string, d: string)
    ensures a + (b + (c + d)) == (a + (b + c)) + d
  {
  }

  // ---------- it ends exactly when there is something to look for ----------

  /** The guard of the loop holds at the start of each of the next `n` turns. */
  predicate KeepsGoing(s: string, from: string, to: string, pos: nat, n: nat)
    decreases n
  {
    n == 0 ||
    match Find(s, from, pos)
    case None => false
    case Some(at) => KeepsGoing(s[..at] + to + s[at + |from|..], from, to, at + |to|, n - 1)
  }

  lemma {:induction false} NoMoreTurnsThanLeft(s: string, from: string, to: string, pos: nat, n: nat)
    requires from != "" && pos <= |s| && KeepsGoing(s, from, to, pos, n)
    ensures n <= |s| - pos
    decreases n
  {
    if n > 0 {
      var at := Find(s, from, pos).value;
      NoMoreTurnsThanLeft(s[..at] + to + s[at + |from|..], from, to, at + |to|, n - 1);
    }
  }

  lemma {:induction false} NothingIsAlwaysFound(s: string, to: string, pos: nat, n: nat)
    requires pos <= |s|
    ensures KeepsGoing(s, "", to, pos, n)
    decreases n
  {
    if n > 0 {
      assert Find(s, "", pos) == Some(pos);
      NothingIsAlwaysFound(s[..pos] + to + s[pos..], to, pos + |to|, n - 1);
    }
  }

  /** The loop comes to an end if and only if `from` is not empty. */
  lemma EndsExactlyWhen(s: string, from: string, to: string)
    ensures (exists n: nat :: !KeepsGoing(s, from, to, 0, n)) <==> from != ""
  {
    if from != "" {
      if KeepsGoing(s, from, to, 0, |s| + 1) {
        NoMoreTurnsThanLeft(s, from, to, 0, |s| + 1);
      }
      assert !KeepsGoing(s, from, to, 0, |s| + 1);
    } else {
      forall n: nat
        ensures KeepsGoing(s, from, to, 0, n)
      {
        NothingIsAlwaysFound(s, to, 0, n);
      }
    }
  }

  // ---------- length and optimality ----------

  /** Each replacement trades one `from` for one `to`, and nothing else changes. */
  lemma {:induction false} LengthBalance(s: string, from: string, to: string)
    requires from != ""
    ensures |Substitute(s, from, to)| + Replacements(s, from) * |from| == |s| + Replacements(s, from) * |to|
    decreases |s|
  {
    if s != "" {
      var rest := if StartsWith(s, from) then s[|from|..] else s[1..];
      LengthBalance(rest, from, to);
      OneMore(Replacements(rest, from), |from|);
      OneMore(Replacements(rest, from), |to|);
    }
  }

  lemma OneMore(n: nat, x: nat)
    ensures (1 + n) * x == x + n * x
  {
  }

  /** A set of places where `from` occurs, no two of them sharing a character. */
  predicate Disjoint(places: set<nat>, s: string, from: string) {
    && (forall i :: i in places ==> OccursAt(s, from, i))
    && (forall i, j :: i in places && j in places && i < j ==> i + |from| <= j)
  }

  function Shifted(places: set<nat>, shift: nat): (r: set<nat>)
    requires forall i :: i in places ==> shift <= i
    ensures forall k: nat :: k in r <==> k + shift in places
  {
    set i | i in places :: i - shift
  }

  lemma {:induction false} ShiftKeepsSize(places: set<nat>, shift: nat)
    requires forall i :: i in places ==> shift <= i
    ensures |Shifted(places, shift)| == |places|
    decreases |places|
  {
    if places != {} {
      var i :| i in places;
      var others := Shifted(places - {i}, shift);
      ShiftKeepsSize(places - {i}, shift);
      assert i - shift !in others;
      assert Shifted(places, shift) == others + {i - shift};
    }
  }

  lemma ShiftKeepsDisjoint(places: set<nat>, s: string, from: string, shift: nat)
    requires shift <= |s| && Disjoint(places, s, from) && forall i :: i in places ==> shift <= i
    ensures Disjoint(Shifted(places, shift), s[shift..], from)
  {
    forall i | i in Shifted(places, shift)
      ensures OccursAt(s[shift..], from, i)
    {
      assert OccursAt(s, from, shift + i);
      SliceOfSlice(s, shift, i, |from|);
    }
  }

  function Early(places: set<nat>, step: nat): set<nat> {
    set i | i in places && i < step
  }

  /** Two disjoint occurrences never both start within the one the scan takes, and none starts at a
      place it passes over. */
  lemma AtMostOneEarly(places: set<nat>, s: string, from: string)
    requires s != "" && from != "" && Disjoint(places, s, from)
    ensures |Early(places, Step(s, from))| <= if StartsWith(s, from) then 1 else 0
  {
    var early := Early(places, Step(s, from));
    if early != {} {
      var i :| i in early;
      assert OccursAt(s, from, i);
      assert early == {i};
      assert i == 0 ==> s[i..i + |from|] == s[..|from|];
    }
  }

  /** How far the scan moves on from the front of `s`. */
  function Step(s: string, from: string): (n: nat)
    requires s != "" && from != ""
    ensures 1 <= n <= |s|
  {
    if StartsWith(s, from) then |from| else 1
  }

  /** No way of choosing disjoint occurrences beats the leftmost scan. */
  lemma {:induction false} NoChoiceIsLarger(places: set<nat>, s: string, from: string)
    requires from != "" && Disjoint(places, s, from)
    ensures |places| <= Replacements(s, from)
    decreases |s|
  {
    if places != {} {
      var p :| p in places;
      assert OccursAt(s, from, p);
      var step := Step(s, from);
      var early := Early(places, step);
      var late := places - early;
      AtMostOneEarly(places, s, from);
      ShiftKeepsSize(late, step);
      ShiftKeepsDisjoint(late, s, from, step);
      NoChoiceIsLarger(Shifted(late, step), s[step..], from);
      assert early + late == places && early !! late;
      assert |places| == |early| + |late|;
      assert Replacements(s, from) == (if StartsWith(s, from) then 1 else 0) + Replacements(s[step..], from);
    }
  }

  function Raised(places: set<nat>, shift: nat): (r: set<nat>)
    ensures forall k :: k in r <==> shift <= k && k - shift in places
  {
    set i | i in places :: i + shift
  }

  /** The places the scan itself replaces. */
  function Scan(s: string, from: string): (places: set<nat>)
    requires from != ""
    decreases |s|
  {
    if s == "" then {}
    else if StartsWith(s, from) then {0} + Raised(Scan(s[|from|..], from), |from|)
    else Raised(Scan(s[1..], from), 1)
  }

  lemma RaiseKeepsSize(places: set<nat>, shift: nat)
    ensures |Raised(places, shift)| == |places|
  {
    var raised := Raised(places, shift);
    assert Shifted(raised, shift) == places;
    ShiftKeepsSize(raised, shift);
  }

  lemma RaiseKeepsDisjoint(places: set<nat>, s: string, from: string, shift: nat)
    requires shift <= |s| && Disjoint(places, s[shift..], from)
    ensures Disjoint(Raised(places, shift), s, from)
  {
    forall i | i in places
      ensures OccursAt(s, from, i + shift)
    {
      assert OccursAt(s[shift..], from, i);
      SliceOfSlice(s, shift, i, |from|);
    }
  }

  lemma {:induction false} ScanIsDisjoint(s: string, from: string)
    requires from != ""
    ensures Disjoint(Scan(s, from), s, from) && |Scan(s, from)| == Replacements(s, from)
    decreases |s|
  {
    if s != "" {
      var step := if StartsWith(s, from) then |from| else 1;
      var later := Scan(s[step..], from);
      var raised := Raised(later, step);
      ScanIsDisjoint(s[step..], from);
      RaiseKeepsSize(later, step);
      RaiseKeepsDisjoint(later, s, from, step);
      if StartsWith(s, from) {
        assert OccursAt(s, from, 0);
        assert 0 !in raised;
      }
    }
  }

  /** `ReplaceString` is optimal: it makes as many replacements as there can be disjoint occurrences. */
  lemma ScanIsOptimal(s: string, from: string)
    requires from != ""
    ensures exists places :: Disjoint(places, s, from) && |places| == Replacements(s, from)
    ensures forall places :: Disjoint(places, s, from) ==> |places| <= Replacements(s, from)
  {
    ScanIsDisjoint(s, from);
    assert Disjoint(Scan(s, from), s, from);
    forall places | Disjoint(places, s, from)
      ensures |places| <= Replacements(s, from)
    {
      NoChoiceIsLarger(places, s, from);
    }
  }

  // ---------- undoing a replacement ----------

  /** Replacing `from` by one character, and that character by `from` again, restores the string
      exactly when the character is not among those the first replacement left in place. */
  lemma {:induction false} UndoneExactlyWhen(s: string, from: string, c: char)
    requires from != ""
    ensures Substitute(Substitute(s, from, [c]), [c], from) == s <==> c !in Kept(s, from)
    decreases |s|
  {
    if s != "" {
      var step := if StartsWith(s, from) then |from| else 1;
      var rest := s[step..];
      var h := if StartsWith(s, from) then c else s[0];
      var mid := Substitute(rest, from, [c]);
      UndoneExactlyWhen(rest, from, c);
      assert Substitute(s, from, [c]) == [h] + mid;
      assert ([h] + mid)[1..] == mid && (StartsWith([h] + mid, [c]) <==> h == c);
      var back := Substitute(mid, [c], from);
      if h == c {
        assert Substitute([h] + mid, [c], from) == from + back;
        assert (from + back)[..|from|] == from && (from + back)[|from|..] == back;
      } else {
        assert Substitute([h] + mid, [c], from) == [h] + back;
        assert ([h] + back)[1..] == back && s == [h] + rest;
      }
    }
  }

  lemma {:induction false} KeptComesFrom(s: string, from: string, c: char)
    requires from != "" && c in Kept(s, from)
    ensures c in s
    decreases |s|
  {
    if s != "" && !(c == s[0] && !StartsWith(s, from)) {
      KeptComesFrom(if StartsWith(s, from) then s[|from|..] else s[1..], from, c);
    }
  }

  /** With a character that does not occur in the string, a replacement can always be undone. */
  lemma UndoneByFreshCharacter(s: string, from: string, c: char)
    requires from != "" && c !in s
    ensures Substitute(Substitute(s, from, [c]), [c], from) == s
  {
    UndoneExactlyWhen(s, from, c);
    if c in Kept(s, from) {
      KeptComesFrom(s, from, c);
    }
  }

  lemma {:induction false} UntouchedPrefix(s: string, from: string, c: char, k: nat)
    requires from != "" && k <= |Substitute(s, from, [c])| && c !in Substitute(s, from, [c])[..k]
    ensures k <= |s| && Substitute(s, from, [c])[..k] == s[..k]
    decreases |s|
  {
    var r := Substitute(s, from, [c]);
    if k > 0 {
      assert r[0] in r[..k];
      assert !StartsWith(s, from);
      var later := Substitute(s[1..], from, [c]);
      assert r[..k][1..] == later[..k - 1];
      forall x | x in later[..k - 1]
        ensures x in r[..k]
      {
        assert x in r[..k][1..];
      }
      UntouchedPrefix(s[1..], from, c, k - 1);
      assert s[..k] == [s[0]] + s[1..][..k - 1];
      assert r[..k] == [s[0]] + later[..k - 1];
    }
  }

  /** After replacing by a character that is not part of `from`, no `from` is left, not even across
      the places where replacements were made. */
  lemma {:induction false} NoneLeft(s: string, from: string, c: char, i: int)
    requires from != "" && c !in from
    ensures !OccursAt(Substitute(s, from, [c]), from, i)
    decreases |s|
  {
    var r := Substitute(s, from, [c]);
    if OccursAt(r, from, i) {
      var step := if StartsWith(s, from) then |from| else 1;
      var later := Substitute(s[step..], from, [c]);
      assert r[1..] == later;
      if i > 0 {
        SliceOfSlice(r, 1, i - 1, |from|);
        NoneLeft(s[step..], from, c, i - 1);
      } else {
        assert r[..|from|] == r[0..|from|];
        assert r[0] == from[0] != c;
        UntouchedPrefix(s, from, c, |from|);
      }
    }
  }

  // ---------- split and join ----------

  /** The pieces in a row, with `between` between any two of them. */
  function Join(pieces: seq<string>, between: string): string
    requires pieces != []
  {
    if |pieces| == 1 then pieces[0] else pieces[0] + between + Join(pieces[1..], between)
  }

  /** In front of `from`, a piece that `find` passes over: `from` does not start within it. */
  predicate PassedOver(piece: string, from: string) {
    forall i :: 0 <= i < |piece| ==> !OccursAt(piece + from, from, i)
  }

  predicate HoldsNone(piece: string, from: string) {
    forall i :: 0 <= i <= |piece| ==> !OccursAt(piece, from, i)
  }

  /** The pieces a left-to-right search for `from` leaves between its finds; the last one holds none. */
  predicate SplitBy(pieces: seq<string>, from: string) {
    && pieces != []
    && (forall k :: 0 <= k < |pieces| - 1 ==> PassedOver(pieces[k], from))
    && HoldsNone(pieces[|pieces| - 1], from)
  }

  lemma PassedOverInFront(piece: string, from: string, rest: string, i: int)
    requires PassedOver(piece, from) && 0 <= i < |piece|
    ensures !OccursAt(piece + from + rest, from, i)
  {
    var s := piece + from + rest;
    assert s[i..i + |from|] == (piece + from)[i..i + |from|];
    assert !OccursAt(piece + from, from, i);
  }

  /** Every text can be split this way. */
  lemma {:induction false} Split(s: string, from: string) returns (pieces: seq<string>)
    requires from != ""
    ensures SplitBy(pieces, from) && Join(pieces, from) == s
    decreases |s|
  {
    var found := Find(s, from, 0);
    if found.None? {
      assert HoldsNone(s, from);
      return [s];
    }
    var at := found.value;
    var piece, rest := s[..at], s[at + |from|..];
    assert s == piece + from + rest;
    forall i | 0 <= i < |piece|
      ensures !OccursAt(piece + from, from, i)
    {
      assert (piece + from)[i..i + |from|] == s[i..i + |from|];
      assert !OccursAt(s, from, i);
    }
    var later := Split(rest, from);
    pieces := [piece] + later;
    assert pieces[1..] == later;
  }

  /** Splitting at `from` and joining with `to` is what the replacement does, one replacement for each
      place where two pieces meet. */
  lemma {:induction false} JoinedWithTo(pieces: seq<string>, from: string, to: string)
    requires from != "" && SplitBy(pieces, from)
    ensures Substitute(Join(pieces, from), from, to) == Join(pieces, to)
    ensures Replacements(Join(pieces, from), from) == |pieces| - 1
  {
    if |pieces| == 1 {
      NothingToReplace(pieces[0], from, to);
    } else {
      var rest := Join(pieces[1..], from);
      assert PassedOver(pieces[0], from);
      JoinedWithTo(pieces[1..], from, to);
      FirstReplaced(pieces[0], from, to, rest);
    }
  }

  lemma NothingToReplace(s: string, from: string, to: string)
    requires from != "" && HoldsNone(s, from)
    ensures Substitute(s, from, to) == s && Replacements(s, from) == 0
  {
    SkipTo(s, from, to, 0, |s|);
    assert s[0..] == s[..|s|] == s && s[|s|..] == "";
  }

  lemma FirstReplaced(piece: string, from: string, to: string, rest: string)
    requires from != "" && PassedOver(piece, from)
    ensures Substitute(piece + from + rest, from, to) == piece + to + Substitute(rest, from, to)
    ensures Replacements(piece + from + rest, from) == 1 + Replacements(rest, from)
  {
    var s, at := piece + from + rest, |piece|;
    forall i | 0 <= i < at
      ensures !OccursAt(s, from, i)
    {
      PassedOverInFront(piece, from, rest, i);
    }
    assert s[0..] == s && s[..at] == piece && s[at..at + |from|] == from && s[at + |from|..] == rest;
    SkipTo(s, from, to, 0, at);
    FoundHere(s, from, to, at);
    Associative(piece, to, Substitute(rest, from, to));
  }

  lemma Associative(a: string, b: string, c: string)
    ensures a + (b + c) == a + b + c
  {
  }
}
