/** glob_lib.c: brace expansion by rewriting the innermost pair first, against the meaning of nested
    alternatives. */
module Braces {
  import opened Strings

  datatype Option<T> = None | Some(value: T)

  // ----- the algorithm -----

  function Count(s: string, c: char): nat {
    if s == "" then 0 else (if s[0] == c then 1 else 0) + Count(s[1..], c)
  }

  /** The first closing brace that has an opening one before it, and the nearest such. */
  function FindPair(s: string, i: nat, left: Option<nat>): (r: Option<(nat, nat)>)
    requires i <= |s|
    requires left.Some? ==> left.value < i && s[left.value] == '{' && NoBraces(s[left.value + 1..i])
    requires left.None? ==> forall k :: 0 <= k < i ==> s[k] != '{'
    ensures r.Some? ==> r.value.0 < r.value.1 < |s| && s[r.value.0] == '{' && s[r.value.1] == '}'
    ensures r.Some? ==> NoBraces(s[r.value.0 + 1..r.value.1])
    decreases |s| - i
  {
    if i == |s| then None
    else if s[i] == '{' then
      assert s[i + 1..i + 1] == "";
      FindPair(s, i + 1, Some(i))
    else if s[i] == '}' && left.Some? then Some((left.value, i))
    else
      assert left.Some? ==> s[left.value + 1..i + 1] == s[left.value + 1..i] + [s[i]];
      FindPair(s, i + 1, left)
  }

  predicate NoBraces(s: string) { '{' !in s && '}' !in s }

  lemma {:induction false} CountJoin(a: string, b: string, c: char)
    ensures Count(a + b, c) == Count(a, c) + Count(b, c)
    decreases |a|
  {
    if a == "" {
      assert a + b == b;
    } else {
      assert (a + b)[1..] == a[1..] + b;
      CountJoin(a[1..], b, c);
    }
  }

  lemma {:induction false} CountNone(s: string, c: char)
    requires c !in s
    ensures Count(s, c) == 0
    decreases |s|
  {
    if s != "" {
      CountNone(s[1..], c);
    }
  }

  lemma {:induction false} SplitNoBraces(s: string, i: nat)
    requires NoBraces(s) && i < |Split(s, ',')|
    ensures NoBraces(Split(s, ',')[i])
    decreases |s|
  {
    if s != "" {
      var rest := Split(s[1..], ',');
      if s[0] == ',' {
        if i > 0 { SplitNoBraces(s[1..], i - 1); }
      } else if i == 0 {
        SplitNoBraces(s[1..], 0);
      } else {
        SplitNoBraces(s[1..], i);
      }
    }
  }

  /** Every recursive call has one opening and one closing brace less. */
  lemma OnePairLess(s: string, left: nat, right: nat, piece: string)
    requires left < right < |s| && s[left] == '{' && s[right] == '}'
    requires NoBraces(s[left + 1..right]) && NoBraces(piece)
    ensures Count(s[..left] + piece + s[right + 1..], '{') == Count(s, '{') - 1
    ensures Count(s[..left] + piece + s[right + 1..], '}') == Count(s, '}') - 1
  {
    var pre, mid, post := s[..left], s[left + 1..right], s[right + 1..];
    assert s == pre + "{" + mid + "}" + post;
    forall c | c == '{' || c == '}' ensures Count(pre + piece + post, c) == Count(s, c) - 1 {
      CountJoin(pre + "{" + mid + "}", post, c);
      CountJoin(pre + "{" + mid, "}", c);
      CountJoin(pre + "{", mid, c);
      CountJoin(pre, "{", c);
      CountJoin(pre + piece, post, c);
      CountJoin(pre, piece, c);
      CountNone(mid, c);
      CountNone(piece, c);
      assert "{"[1..] == "" && "}"[1..] == "";
    }
  }

  /** The patterns that the braces stand for. */
  function Expand(s: string): set<string>
    decreases Count(s, '{'), 1, 0
  {
    match FindPair(s, 0, None)
    case None => {s}
    case Some((left, right)) => ExpandPieces(s, left, right, 0)
  }

  function ExpandPieces(s: string, left: nat, right: nat, i: nat): set<string>
    requires left < right < |s| && s[left] == '{' && s[right] == '}' && NoBraces(s[left + 1..right])
    requires i <= |Split(s[left + 1..right], ',')|
    decreases Count(s, '{'), 0, |Split(s[left + 1..right], ',')| - i
  {
    var pieces := Split(s[left + 1..right], ',');
    if i == |pieces| then {}
    else
      SplitNoBraces(s[left + 1..right], i);
      OnePairLess(s, left, right, pieces[i]);
      Expand(s[..left] + pieces[i] + s[right + 1..]) + ExpandPieces(s, left, right, i + 1)
  }

  /** What becomes of the pattern when the pair is replaced by one of its pieces. */
  function Rewritten(s: string, left: nat, right: nat, piece: string): string
    requires left < right < |s|
  {
    s[..left] + piece + s[right + 1..]
  }

  lemma PiecesStep(s: string, left: nat, right: nat, i: nat)
    requires left < right < |s| && s[left] == '{' && s[right] == '}' && NoBraces(s[left + 1..right])
    requires i < |Split(s[left + 1..right], ',')|
    ensures var next := Rewritten(s, left, right, Split(s[left + 1..right], ',')[i]);
      && Count(next, '{') == Count(s, '{') - 1
      && ExpandPieces(s, left, right, i) == Expand(next) + ExpandPieces(s, left, right, i + 1)
  {
    hide Count, Split, Expand;
    SplitNoBraces(s[left + 1..right], i);
    OnePairLess(s, left, right, Split(s[left + 1..right], ',')[i]);
  }

  /** The loop that looks for the pair. */
  method FindBraces(s: string) returns (r: Option<(nat, nat)>)
    ensures r == FindPair(s, 0, None)
  {
    hide NoBraces;
    var left: Option<nat> := None;
    for i := 0 to |s|
      invariant left.Some? ==> left.value < i && s[left.value] == '{' && NoBraces(s[left.value + 1..i])
      invariant left.None? ==> forall k :: 0 <= k < i ==> s[k] != '{'
      invariant FindPair(s, i, left) == FindPair(s, 0, None)
    {
      StillOpen(s, i, left);
      if s[i] == '{' {
        left := Some(i);
      } else if left.Some? && s[i] == '}' {
        return Some((left.value, i));
      }
    }
    return None;
  }

  lemma StillOpen(s: string, i: nat, left: Option<nat>)
    requires i < |s| && (left.Some? ==> left.value < i && NoBraces(s[left.value + 1..i]))
    ensures NoBraces(s[i + 1..i + 1])
    ensures left.Some? && s[i] != '{' && s[i] != '}' ==> NoBraces(s[left.value + 1..i + 1])
  {
    if left.Some? {
      assert s[left.value + 1..i + 1] == s[left.value + 1..i] + [s[i]];
    }
  }

  /** ExpandBraces: the set grows by the patterns found. */
  method ExpandBraces(pattern: string, expanded: set<string>) returns (r: set<string>)
    ensures r == expanded + Expand(pattern)
    decreases Count(pattern, '{')
  {
    hide Count, Split, ExpandPieces, FindPair, NoBraces;
    var pair := FindBraces(pattern);
    if pair.None? {
      return expanded + {pattern};
    }
    var (left, right) := pair.value;
    var split := StringSplit(pattern[left + 1..right], ',');
    r := expanded;
    for i := 0 to |split|
      invariant r + ExpandPieces(pattern, left, right, i) == expanded + ExpandPieces(pattern, left, right, 0)
    {
      PiecesStep(pattern, left, right, i);
      r := ExpandBraces(Rewritten(pattern, left, right, split[i]), r);
    }
    NoPieces(pattern, left, right);
  }

  lemma NoPieces(s: string, left: nat, right: nat)
    requires left < right < |s| && s[left] == '{' && s[right] == '}' && NoBraces(s[left + 1..right])
    ensures ExpandPieces(s, left, right, |Split(s[left + 1..right], ',')|) == {}
  {
  }

  // ----- any text, balanced or not -----

  /** The pair's closing brace is the first that has an opening one before it, and that one is the nearest. */
  predicate FirstPair(s: string, left: nat, right: nat) {
    && left < right < |s| && s[left] == '{' && s[right] == '}' && NoBraces(s[left + 1..right])
    && forall k, j :: 0 <= k < j < right ==> !(s[k] == '{' && s[j] == '}')
  }

  lemma {:induction false} FirstIsFound(s: string, left: nat, right: nat, i: nat, last: Option<nat>)
    requires FirstPair(s, left, right) && i <= right
    requires last.Some? ==> last.value < i && s[last.value] == '{' && NoBraces(s[last.value + 1..i])
    requires last.None? ==> forall k :: 0 <= k < i ==> s[k] != '{'
    requires i > left ==> last == Some(left)
    ensures FindPair(s, i, last) == Some((left, right))
    decreases right - i
  {
    if i < right {
      assert i > left ==> s[i] == s[left + 1..right][i - left - 1];
      assert last.Some? ==> s[last.value + 1..i + 1] == s[last.value + 1..i] + [s[i]];
      assert s[i + 1..i + 1] == "";
      FirstIsFound(s, left, right, i + 1, if s[i] == '{' then Some(i) else last);
    }
  }

  /** One of the things that the pattern stands for when the pair is replaced by its i-th piece. */
  predicate Chooses(s: string, left: nat, right: nat, i: nat, e: string) {
    left < right < |s| && i < |Split(s[left + 1..right], ',')|
    && e in Expand(s[..left] + Split(s[left + 1..right], ',')[i] + s[right + 1..])
  }

  /** A text without a pair stands for itself; any other for what it stands for with its first pair replaced by
      one of the pieces in it. */
  lemma ExpandAny(s: string, left: nat, right: nat, e: string)
    ensures NoPair(s) ==> Expand(s) == {s}
    ensures FirstPair(s, left, right) ==> (e in Expand(s) <==> exists i: nat :: Chooses(s, left, right, i, e))
  {
    hide FindPair, ExpandPieces, Split, NoBraces, FirstPair, Count, Chooses;
    if NoPair(s) {
      PairNone(s);
    }
    if FirstPair(s, left, right) {
      PairSome(s, left, right);
      PiecesHave(s, left, right, 0, e);
    }
  }

  lemma PairNone(s: string)
    requires NoPair(s)
    ensures FindPair(s, 0, None) == None
  {
  }

  lemma PairSome(s: string, left: nat, right: nat)
    requires FirstPair(s, left, right)
    ensures left < right < |s| && s[left] == '{' && s[right] == '}' && NoBraces(s[left + 1..right])
    ensures FindPair(s, 0, None) == Some((left, right))
  {
    FirstIsFound(s, left, right, 0, None);
  }

  lemma {:induction false} PiecesHave(s: string, left: nat, right: nat, i: nat, e: string)
    requires left < right < |s| && s[left] == '{' && s[right] == '}' && NoBraces(s[left + 1..right])
    requires i <= |Split(s[left + 1..right], ',')|
    ensures e in ExpandPieces(s, left, right, i) <==> exists j: nat :: i <= j && Chooses(s, left, right, j, e)
    decreases |Split(s[left + 1..right], ',')| - i
  {
    hide Count, Split, Expand, ExpandPieces, NoBraces;
    if i < |Split(s[left + 1..right], ',')| {
      PiecesStep(s, left, right, i);
      PiecesHave(s, left, right, i + 1, e);
      assert Chooses(s, left, right, i, e) <==> e in Expand(Rewritten(s, left, right, Split(s[left + 1..right], ',')[i]));
    } else {
      NoPieces(s, left, right);
    }
  }

  // ----- no pair is left -----

  predicate NoPair(s: string) { forall i, j :: 0 <= i < j < |s| ==> !(s[i] == '{' && s[j] == '}') }

  lemma {:induction false} PairIsFound(s: string, i: nat, left: Option<nat>)
    requires i <= |s|
    requires left.Some? ==> left.value < i && s[left.value] == '{' && NoBraces(s[left.value + 1..i])
    requires left.None? ==> forall k :: 0 <= k < i ==> s[k] != '{'
    requires FindPair(s, i, left).None?
    ensures forall k, j :: 0 <= k < j < |s| && i <= j && s[j] == '}' ==> s[k] != '{'
    decreases |s| - i
  {
    if i < |s| {
      assert left.Some? ==> s[left.value + 1..i + 1] == s[left.value + 1..i] + [s[i]];
      assert s[i + 1..i + 1] == "";
      PairIsFound(s, i + 1, if s[i] == '{' then Some(i) else left);
    }
  }

  /** No result holds an opening brace with a closing one somewhere after it. */
  lemma {:induction false} NoPairLeft(s: string)
    ensures forall r :: r in Expand(s) ==> NoPair(r)
    decreases Count(s, '{'), 1, 0
  {
    match FindPair(s, 0, None)
    case None => PairIsFound(s, 0, None);
    case Some((left, right)) => NoPairInPieces(s, left, right, 0);
  }

  lemma {:induction false} NoPairInPieces(s: string, left: nat, right: nat, i: nat)
    requires left < right < |s| && s[left] == '{' && s[right] == '}' && NoBraces(s[left + 1..right])
    requires i <= |Split(s[left + 1..right], ',')|
    ensures forall r :: r in ExpandPieces(s, left, right, i) ==> NoPair(r)
    decreases Count(s, '{'), 0, |Split(s[left + 1..right], ',')| - i
  {
    var pieces := Split(s[left + 1..right], ',');
    if i < |pieces| {
      SplitNoBraces(s[left + 1..right], i);
      OnePairLess(s, left, right, pieces[i]);
      NoPairLeft(s[..left] + pieces[i] + s[right + 1..]);
      NoPairInPieces(s, left, right, i + 1);
    }
  }

  // ----- nested alternatives -----

  /** A pattern: literal characters and groups of alternatives, which are patterns again. */
  datatype Pat = End | Lit(c: char, rest: Pat) | Group(alts: Alts, rest: Pat)
  datatype Alts = Only(p: Pat) | Or(p: Pat, more: Alts)

  /** Braces are no literals, and inside a group neither are commas. */
  predicate Proper(p: Pat, inside: bool) {
    match p
    case End => true
    case Lit(c, rest) => c != '{' && c != '}' && (inside ==> c != ',') && Proper(rest, inside)
    case Group(alts, rest) => ProperAlts(alts) && Proper(rest, inside)
  }

  predicate ProperAlts(a: Alts) {
    match a
    case Only(p) => Proper(p, true)
    case Or(p, more) => Proper(p, true) && ProperAlts(more)
  }

  function Text(p: Pat): string {
    match p
    case End => ""
    case Lit(c, rest) => [c] + Text(rest)
    case Group(alts, rest) => "{" + AltsText(alts) + "}" + Text(rest)
  }

  function AltsText(a: Alts): string {
    match a
    case Only(p) => Text(p)
    case Or(p, more) => Text(p) + "," + AltsText(more)
  }

  /** `s` is one of the strings that the pattern stands for. */
  ghost predicate Means(p: Pat, s: string) {
    match p
    case End => s == ""
    case Lit(c, rest) => s != "" && s[0] == c && Means(rest, s[1..])
    case Group(alts, rest) => exists k :: 0 <= k <= |s| && MeansAlt(alts, s[..k]) && Means(rest, s[k..])
  }

  ghost predicate MeansAlt(a: Alts, s: string) {
    match a
    case Only(p) => Means(p, s)
    case Or(p, more) => Means(p, s) || MeansAlt(more, s)
  }

  /** The first `k` characters come from the group and the others from what follows it. */
  ghost predicate MeansAt(alts: Alts, rest: Pat, s: string, k: nat) {
    k <= |s| && MeansAlt(alts, s[..k]) && Means(rest, s[k..])
  }

  // ----- the first pair that closes -----

  predicate Grouped(p: Pat) {
    match p
    case End => false
    case Lit(_, rest) => Grouped(rest)
    case Group(_, _) => true
  }

  predicate GroupedAlts(a: Alts) {
    match a
    case Only(p) => Grouped(p)
    case Or(p, more) => Grouped(p) || GroupedAlts(more)
  }

  function Groups(p: Pat): nat {
    match p
    case End => 0
    case Lit(_, rest) => Groups(rest)
    case Group(alts, rest) => 1 + GroupsAlts(alts) + Groups(rest)
  }

  function GroupsAlts(a: Alts): nat {
    match a
    case Only(p) => Groups(p)
    case Or(p, more) => Groups(p) + GroupsAlts(more)
  }

  /** The alternatives of a group without groups. */
  function Choices(a: Alts): seq<string> {
    match a
    case Only(p) => [Text(p)]
    case Or(p, more) => [Text(p)] + Choices(more)
  }

  /** The first pair that closes: what is before it, its alternatives, and what is after it. */
  datatype Spot = Spot(pre: string, choices: seq<string>, post: string)

  function FirstSpot(p: Pat): Spot
    requires Grouped(p)
  {
    match p
    case Lit(c, rest) =>
      var s := FirstSpot(rest);
      Spot([c] + s.pre, s.choices, s.post)
    case Group(alts, rest) =>
      if GroupedAlts(alts) then
        var s := FirstSpotAlts(alts);
        Spot("{" + s.pre, s.choices, s.post + "}" + Text(rest))
      else Spot("", Choices(alts), Text(rest))
  }

  function FirstSpotAlts(a: Alts): Spot
    requires GroupedAlts(a)
  {
    match a
    case Only(p) => FirstSpot(p)
    case Or(p, more) =>
      if Grouped(p) then
        var s := FirstSpot(p);
        s.(post := s.post + "," + AltsText(more))
      else
        var s := FirstSpotAlts(more);
        s.(pre := Text(p) + "," + s.pre)
  }

  function Literal(s: string, rest: Pat): Pat {
    if s == "" then rest else Lit(s[0], Literal(s[1..], rest))
  }

  /** The pattern with one of the alternatives in the place of the first pair. */
  function Chosen(p: Pat, s: string): Pat
    requires Grouped(p)
  {
    match p
    case Lit(c, rest) => Lit(c, Chosen(rest, s))
    case Group(alts, rest) =>
      if GroupedAlts(alts) then Group(ChosenAlts(alts, s), rest) else Literal(s, rest)
  }

  function ChosenAlts(a: Alts, s: string): Alts
    requires GroupedAlts(a)
  {
    match a
    case Only(p) => Only(Chosen(p, s))
    case Or(p, more) => if Grouped(p) then Or(Chosen(p, s), more) else Or(p, ChosenAlts(more, s))
  }

  function Join(ss: seq<string>): string {
    if ss == [] then "" else if |ss| == 1 then ss[0] else ss[0] + "," + Join(ss[1..])
  }

  /** A piece between commas of the innermost pair. */
  predicate Piece(s: string) { NoBraces(s) && ',' !in s }

  predicate Pieces(ss: seq<string>) { ss != [] && forall i :: 0 <= i < |ss| ==> Piece(ss[i]) }

  lemma {:induction false} PlainText(p: Pat)
    requires Proper(p, true) && !Grouped(p)
    ensures Piece(Text(p))
    decreases p
  {
    match p
    case End =>
    case Lit(c, rest) => PlainText(rest);
  }

  lemma {:induction false} PlainChoices(a: Alts)
    requires ProperAlts(a) && !GroupedAlts(a)
    ensures Pieces(Choices(a)) && AltsText(a) == Join(Choices(a))
    decreases a
  {
    match a
    case Only(p) => PlainText(p);
    case Or(p, more) =>
      PlainText(p);
      PlainChoices(more);
      assert Choices(a)[1..] == Choices(more);
  }

  lemma LiteralText(s: string, rest: Pat)
    ensures Text(Literal(s, rest)) == s + Text(rest)
  {
    if s == "" {
      assert s + Text(rest) == Text(rest);
    } else {
      LiteralText(s[1..], rest);
      assert [s[0]] + (s[1..] + Text(rest)) == s + Text(rest);
    }
  }

  /** The text of a spot with something in the place of the pair. */
  function Around(s: Spot, mid: string): string { s.pre + mid + s.post }

  function PairText(ss: seq<string>): string { "{" + Join(ss) + "}" }

  ghost predicate SpotOk(s: Spot, text: string) {
    '}' !in s.pre && Pieces(s.choices) && text == Around(s, PairText(s.choices))
  }

  lemma {:induction false} SpotHolds(p: Pat, inside: bool)
    requires Proper(p, inside) && Grouped(p)
    ensures SpotOk(FirstSpot(p), Text(p))
    decreases p
  {
    hide Pieces, PairText;
    match p
    case Lit(c, rest) =>
      SpotHolds(rest, inside);
      Shift([c], FirstSpot(rest), "", PairText(FirstSpot(rest).choices));
      assert FirstSpot(rest).post + "" == FirstSpot(rest).post;
      assert [c] + Text(rest) + "" == [c] + Text(rest);
    case Group(alts, rest) =>
      if GroupedAlts(alts) {
        SpotHoldsAlts(alts);
        var s := FirstSpotAlts(alts);
        Shift("{", s, "}" + Text(rest), PairText(s.choices));
        assert s.post + ("}" + Text(rest)) == s.post + "}" + Text(rest);
        assert "{" + AltsText(alts) + ("}" + Text(rest)) == Text(p);
      } else {
        PlainChoices(alts);
        LastSpot(alts, rest);
      }
  }

  lemma LastSpot(alts: Alts, rest: Pat)
    requires AltsText(alts) == Join(Choices(alts))
    ensures Around(Spot("", Choices(alts), Text(rest)), PairText(Choices(alts))) == "{" + AltsText(alts) + "}" + Text(rest)
  {
  }

  /** Text before and after a spot. */
  lemma Shift(a: string, s: Spot, b: string, mid: string)
    ensures Around(Spot(a + s.pre, s.choices, s.post + b), mid) == a + Around(s, mid) + b
  {
  }

  lemma {:induction false} SpotHoldsAlts(a: Alts)
    requires ProperAlts(a) && GroupedAlts(a)
    ensures SpotOk(FirstSpotAlts(a), AltsText(a))
    decreases a
  {
    hide Pieces, PairText;
    match a
    case Only(p) => SpotHolds(p, true);
    case Or(p, more) =>
      if Grouped(p) {
        SpotHolds(p, true);
        var s := FirstSpot(p);
        Shift("", s, "," + AltsText(more), PairText(s.choices));
        assert "" + s.pre == s.pre && s.post + ("," + AltsText(more)) == s.post + "," + AltsText(more);
        assert "" + Text(p) + ("," + AltsText(more)) == AltsText(a);
      } else {
        PlainText(p);
        SpotHoldsAlts(more);
        var s := FirstSpotAlts(more);
        Shift(Text(p) + ",", s, "", PairText(s.choices));
        assert s.post + "" == s.post && Text(p) + "," + AltsText(more) + "" == AltsText(a);
      }
  }

  lemma {:induction false} ChosenText(p: Pat, s: string)
    requires Grouped(p)
    ensures Text(Chosen(p, s)) == Around(FirstSpot(p), s)
    decreases p
  {
    match p
    case Lit(c, rest) =>
      ChosenText(rest, s);
      var f := FirstSpot(rest);
      assert [c] + (f.pre + s + f.post) == [c] + f.pre + s + f.post;
    case Group(alts, rest) =>
      if GroupedAlts(alts) {
        ChosenAltsText(alts, s);
        var f := FirstSpotAlts(alts);
        Shift("{", f, "}" + Text(rest), s);
        assert f.post + ("}" + Text(rest)) == f.post + "}" + Text(rest);
        assert "{" + Around(f, s) + ("}" + Text(rest)) == "{" + Around(f, s) + "}" + Text(rest);
      } else {
        LiteralText(s, rest);
        assert "" + s == s;
      }
  }

  lemma {:induction false} ChosenAltsText(a: Alts, s: string)
    requires GroupedAlts(a)
    ensures AltsText(ChosenAlts(a, s)) == Around(FirstSpotAlts(a), s)
    decreases a
  {
    match a
    case Only(p) => ChosenText(p, s);
    case Or(p, more) =>
      if Grouped(p) {
        ChosenText(p, s);
        var f := FirstSpot(p);
        Shift("", f, "," + AltsText(more), s);
        assert "" + f.pre == f.pre && f.post + ("," + AltsText(more)) == f.post + "," + AltsText(more);
        assert "" + Around(f, s) + ("," + AltsText(more)) == Around(f, s) + "," + AltsText(more);
      } else {
        ChosenAltsText(more, s);
        var f := FirstSpotAlts(more);
        Shift(Text(p) + ",", f, "", s);
        assert f.post + "" == f.post && Text(p) + "," + Around(f, s) + "" == Text(p) + "," + Around(f, s);
      }
  }

  // ----- replacing the pair keeps the meaning -----

  lemma {:induction false} ChosenProper(p: Pat, s: string, inside: bool)
    requires Grouped(p) && Proper(p, inside) && Piece(s)
    ensures Proper(Chosen(p, s), inside) && Groups(Chosen(p, s)) < Groups(p)
    decreases p
  {
    match p
    case Lit(_, rest) => ChosenProper(rest, s, inside);
    case Group(alts, rest) =>
      if GroupedAlts(alts) {
        ChosenProperAlts(alts, s);
      } else {
        LiteralProper(s, rest, inside);
      }
  }

  lemma {:induction false} ChosenProperAlts(a: Alts, s: string)
    requires GroupedAlts(a) && ProperAlts(a) && Piece(s)
    ensures ProperAlts(ChosenAlts(a, s)) && GroupsAlts(ChosenAlts(a, s)) < GroupsAlts(a)
    decreases a
  {
    match a
    case Only(p) => ChosenProper(p, s, true);
    case Or(p, more) =>
      if Grouped(p) {
        ChosenProper(p, s, true);
      } else {
        ChosenProperAlts(more, s);
      }
  }

  lemma {:induction false} LiteralProper(s: string, rest: Pat, inside: bool)
    requires Piece(s) && Proper(rest, inside)
    ensures Proper(Literal(s, rest), inside) && Groups(Literal(s, rest)) == Groups(rest)
    decreases |s|
  {
    if s != "" {
      assert s[0] in s;
      LiteralProper(s[1..], rest, inside);
    }
  }

  lemma {:induction false} LiteralMeans(s: string, rest: Pat, r: string)
    ensures Means(Literal(s, rest), r) <==> s <= r && Means(rest, r[|s|..])
    decreases |s|
  {
    if s == "" {
      assert r[0..] == r;
    } else {
      if r != "" {
        LiteralMeans(s[1..], rest, r[1..]);
        if s[0] == r[0] {
          assert s <= r <==> s[1..] <= r[1..];
          if s <= r {
            assert r[1..][|s| - 1..] == r[|s|..];
          }
        }
      }
    }
  }

  /** A pattern without groups stands for its own text. */
  lemma {:induction false} PlainMeans(p: Pat, r: string)
    requires !Grouped(p)
    ensures Means(p, r) <==> r == Text(p)
    decreases p
  {
    match p
    case End =>
    case Lit(c, rest) =>
      if r != "" {
        PlainMeans(rest, r[1..]);
        assert r == [r[0]] + r[1..];
      }
  }

  lemma {:induction false} PlainMeansAlts(a: Alts, r: string)
    requires !GroupedAlts(a)
    ensures MeansAlt(a, r) <==> r in Choices(a)
    decreases a
  {
    match a
    case Only(p) => PlainMeans(p, r);
    case Or(p, more) =>
      PlainMeans(p, r);
      PlainMeansAlts(more, r);
  }

  /** Some choice for the first pair leads to `r`. */
  ghost predicate ViaChoice(p: Pat, r: string)
    requires Grouped(p)
  {
    exists s :: s in FirstSpot(p).choices && Means(Chosen(p, s), r)
  }

  ghost predicate ViaChoiceAlts(a: Alts, r: string)
    requires GroupedAlts(a)
  {
    exists s :: s in FirstSpotAlts(a).choices && MeansAlt(ChosenAlts(a, s), r)
  }

  /** A pattern stands for what it stands for with one of the alternatives of its first pair chosen. */
  lemma {:induction false} ChoiceMeans(p: Pat, inside: bool, r: string)
    requires Grouped(p) && Proper(p, inside)
    ensures Means(p, r) <==> ViaChoice(p, r)
    decreases p
  {
    match p
    case Lit(c, rest) =>
      if r != "" {
        ChoiceMeans(rest, inside, r[1..]);
        LitChoice(c, rest, r);
      }
    case Group(alts, rest) =>
      if GroupedAlts(alts) {
        forall k | 0 <= k <= |r| ensures MeansAlt(alts, r[..k]) <==> ViaChoiceAlts(alts, r[..k]) {
          ChoiceMeansAlts(alts, r[..k]);
        }
        GroupChoice(alts, rest, r);
      } else {
        OpenChoice(alts, rest, r);
      }
  }

  lemma LitChoice(c: char, rest: Pat, r: string)
    requires Grouped(rest) && r != ""
    ensures ViaChoice(Lit(c, rest), r) <==> r[0] == c && ViaChoice(rest, r[1..])
  {
    var p := Lit(c, rest);
    forall s ensures Means(Chosen(p, s), r) <==> r[0] == c && Means(Chosen(rest, s), r[1..]) {
    }
  }

  lemma GroupChoice(alts: Alts, rest: Pat, r: string)
    requires GroupedAlts(alts)
    requires forall k :: 0 <= k <= |r| ==> (MeansAlt(alts, r[..k]) <==> ViaChoiceAlts(alts, r[..k]))
    ensures Means(Group(alts, rest), r) <==> ViaChoice(Group(alts, rest), r)
  {
    hide FirstSpotAlts, ChosenAlts, Means, MeansAlt;
    var p := Group(alts, rest);
    MeansGroup(alts, rest, r);
    if s :| s in FirstSpot(p).choices && Means(Chosen(p, s), r) {
      MeansGroup(ChosenAlts(alts, s), rest, r);
      var k: nat :| MeansAt(ChosenAlts(alts, s), rest, r, k);
      assert ViaChoiceAlts(alts, r[..k]);
      assert MeansAt(alts, rest, r, k);
    }
    if k: nat :| MeansAt(alts, rest, r, k) {
      assert ViaChoiceAlts(alts, r[..k]);
      var s :| s in FirstSpotAlts(alts).choices && MeansAlt(ChosenAlts(alts, s), r[..k]);
      MeansGroup(ChosenAlts(alts, s), rest, r);
      assert MeansAt(ChosenAlts(alts, s), rest, r, k);
      assert Means(Chosen(p, s), r);
    }
  }

  lemma MeansGroup(alts: Alts, rest: Pat, r: string)
    ensures Means(Group(alts, rest), r) <==> exists k: nat :: MeansAt(alts, rest, r, k)
  {
    if Means(Group(alts, rest), r) {
      var k :| 0 <= k <= |r| && MeansAlt(alts, r[..k]) && Means(rest, r[k..]);
      assert MeansAt(alts, rest, r, k);
    }
    if k: nat :| MeansAt(alts, rest, r, k) {
      assert MeansAlt(alts, r[..k]) && Means(rest, r[k..]);
    }
  }

  lemma OpenChoice(alts: Alts, rest: Pat, r: string)
    requires !GroupedAlts(alts)
    ensures Means(Group(alts, rest), r) <==> ViaChoice(Group(alts, rest), r)
  {
    hide Means, MeansAlt;
    var p := Group(alts, rest);
    MeansGroup(alts, rest, r);
    if k: nat :| MeansAt(alts, rest, r, k) {
      PlainMeansAlts(alts, r[..k]);
      LiteralMeans(r[..k], rest, r);
      assert r[..k] in FirstSpot(p).choices && Means(Chosen(p, r[..k]), r);
    }
    if s :| s in FirstSpot(p).choices && Means(Chosen(p, s), r) {
      LiteralMeans(s, rest, r);
      PlainMeansAlts(alts, s);
      assert r[..|s|] == s;
      assert MeansAt(alts, rest, r, |s|);
    }
  }

  lemma {:induction false} ChoiceMeansAlts(a: Alts, r: string)
    requires GroupedAlts(a) && ProperAlts(a)
    ensures MeansAlt(a, r) <==> ViaChoiceAlts(a, r)
    decreases a
  {
    match a
    case Only(p) =>
      ChoiceMeans(p, true, r);
      forall s ensures MeansAlt(ChosenAlts(a, s), r) <==> Means(Chosen(p, s), r) {
      }
    case Or(p, more) =>
      if Grouped(p) {
        ChoiceMeans(p, true, r);
        SpotHolds(p, true);
        assert FirstSpot(p).choices[0] in FirstSpot(p).choices;
        forall s ensures MeansAlt(ChosenAlts(a, s), r) <==> Means(Chosen(p, s), r) || MeansAlt(more, r) {
        }
      } else {
        ChoiceMeansAlts(more, r);
        SpotHoldsAlts(more);
        assert FirstSpotAlts(more).choices[0] in FirstSpotAlts(more).choices;
        forall s ensures MeansAlt(ChosenAlts(a, s), r) <==> Means(p, r) || MeansAlt(ChosenAlts(more, s), r) {
        }
      }
  }

  // ----- the algorithm finds that pair -----

  lemma {:induction false} ScanPre(s: string, i: nat, left: Option<nat>, at: nat, end: nat)
    requires i <= at < end < |s| && s[at] == '{' && s[end] == '}' && NoBraces(s[at + 1..end])
    requires forall k :: 0 <= k < at ==> s[k] != '}'
    requires left.Some? ==> left.value < i && s[left.value] == '{' && NoBraces(s[left.value + 1..i])
    requires left.None? ==> forall k :: 0 <= k < i ==> s[k] != '{'
    ensures FindPair(s, i, left) == Some((at, end))
    decreases |s| - i
  {
    assert s[i + 1..i + 1] == "";
    if i == at {
      ScanMid(s, at + 1, at, end);
    } else {
      assert left.Some? ==> s[left.value + 1..i + 1] == s[left.value + 1..i] + [s[i]];
      ScanPre(s, i + 1, if s[i] == '{' then Some(i) else left, at, end);
    }
  }

  lemma {:induction false} ScanMid(s: string, i: nat, at: nat, end: nat)
    requires at < i <= end < |s| && s[at] == '{' && s[end] == '}' && NoBraces(s[at + 1..end])
    requires NoBraces(s[at + 1..i])
    ensures FindPair(s, i, Some(at)) == Some((at, end))
    decreases end - i
  {
    if i < end {
      assert s[i] == s[at + 1..end][i - at - 1];
      assert s[at + 1..i + 1] == s[at + 1..i] + [s[i]];
      ScanMid(s, i + 1, at, end);
    }
  }

  lemma {:induction false} JoinNoBraces(ss: seq<string>)
    requires Pieces(ss)
    ensures NoBraces(Join(ss))
    decreases |ss|
  {
    if |ss| > 1 {
      JoinNoBraces(ss[1..]);
    }
  }

  lemma {:induction false} SplitPiece(s: string, rest: string)
    requires ',' !in s
    ensures Split(s, ',') == [s] && Split(s + "," + rest, ',') == [s] + Split(rest, ',')
    decreases |s|
  {
    if s == "" {
      assert s + "," + rest == "," + rest && ("," + rest)[1..] == rest;
    } else {
      SplitPiece(s[1..], rest);
      assert (s + "," + rest)[1..] == s[1..] + "," + rest;
      assert [s[0]] + s[1..] == s;
    }
  }

  lemma {:induction false} SplitJoin(ss: seq<string>)
    requires Pieces(ss)
    ensures Split(Join(ss), ',') == ss
    decreases |ss|
  {
    if |ss| == 1 {
      SplitPiece(ss[0], "");
      assert ss == [ss[0]];
    } else {
      SplitPiece(ss[0], Join(ss[1..]));
      SplitJoin(ss[1..]);
    }
  }

  /** The pair that the algorithm rewrites in the text is the first pair of the pattern. */
  lemma FindsFirst(s: Spot, text: string)
    requires SpotOk(s, text)
    ensures var left, right := |s.pre|, |s.pre| + 1 + |Join(s.choices)|;
      && right < |text| && text[left] == '{' && text[right] == '}'
      && FindPair(text, 0, None) == Some((left, right))
      && text[left + 1..right] == Join(s.choices) && NoBraces(Join(s.choices))
      && text[..left] == s.pre && text[right + 1..] == s.post
  {
    hide FindPair, Pieces, Join;
    var left, right, mid := |s.pre|, |s.pre| + 1 + |Join(s.choices)|, Join(s.choices);
    JoinNoBraces(s.choices);
    Slices(s.pre, mid, s.post);
    forall k | 0 <= k < left ensures text[k] != '}' {
      assert text[k] == s.pre[k];
    }
    ScanPre(text, 0, None, left, right);
  }

  lemma Slices(pre: string, mid: string, post: string)
    ensures var text, left, right := pre + ("{" + mid + "}") + post, |pre|, |pre| + 1 + |mid|;
      && text[..left] == pre && text[left] == '{' && text[left + 1..right] == mid && text[right] == '}'
      && text[right + 1..] == post
  {
  }

  // ----- the expansion is the meaning -----

  lemma {:induction false} PlainPair(p: Pat, inside: bool)
    requires Proper(p, inside) && !Grouped(p)
    ensures NoBraces(Text(p))
    decreases p
  {
    match p
    case End =>
    case Lit(_, rest) => PlainPair(rest, inside);
  }

  lemma PlainExpands(s: string)
    requires NoBraces(s)
    ensures Expand(s) == {s}
  {
    PairHasBrace(s);
  }

  lemma PairHasBrace(s: string)
    ensures FindPair(s, 0, None).Some? ==> '{' in s
  {
    if FindPair(s, 0, None).Some? {
      assert s[FindPair(s, 0, None).value.0] in s;
    }
  }

  /** `r` comes from the piece `j` between the braces. */
  ghost predicate FromPiece(s: string, left: nat, right: nat, j: nat, r: string)
    requires left < right < |s|
  {
    && j < |Split(s[left + 1..right], ',')|
    && r in Expand(Rewritten(s, left, right, Split(s[left + 1..right], ',')[j]))
  }

  lemma {:induction false} InPieces(s: string, left: nat, right: nat, i: nat, r: string)
    requires left < right < |s| && s[left] == '{' && s[right] == '}' && NoBraces(s[left + 1..right])
    requires i <= |Split(s[left + 1..right], ',')|
    ensures r in ExpandPieces(s, left, right, i) <==> exists j :: i <= j && FromPiece(s, left, right, j, r)
    decreases |Split(s[left + 1..right], ',')| - i
  {
    hide Expand, Split, ExpandPieces;
    if i < |Split(s[left + 1..right], ',')| {
      PiecesStep(s, left, right, i);
      InPieces(s, left, right, i + 1, r);
      assert FromPiece(s, left, right, i, r) <==> r in Expand(Rewritten(s, left, right, Split(s[left + 1..right], ',')[i]));
    } else {
      NoPieces(s, left, right);
    }
  }

  /** Innermost first, the rewriting finds exactly the strings that the nested alternatives stand for. */
  lemma {:induction false} ExpandMeans(p: Pat, r: string)
    requires Proper(p, false)
    ensures r in Expand(Text(p)) <==> Means(p, r)
    decreases Groups(p)
  {
    hide FindPair, Split, Pieces, Means, FirstSpot, Chosen, Around, Rewritten;
    if !Grouped(p) {
      PlainPair(p, false);
      PlainExpands(Text(p));
      PlainMeans(p, r);
    } else {
      var text, spot := Text(p), FirstSpot(p);
      SpotHolds(p, false);
      FindsFirst(spot, text);
      SplitJoin(spot.choices);
      var left, right := |spot.pre|, |spot.pre| + 1 + |Join(spot.choices)|;
      InPieces(text, left, right, 0, r);
      ChoiceMeans(p, false, r);
      forall j | 0 <= j < |spot.choices|
        ensures FromPiece(text, left, right, j, r) <==> Means(Chosen(p, spot.choices[j]), r)
      {
        ChosenText(p, spot.choices[j]);
        RewrittenIs(spot, text, left, right, spot.choices[j]);
        PieceAt(spot.choices, j);
        ChosenProper(p, spot.choices[j], false);
        ExpandMeans(Chosen(p, spot.choices[j]), r);
      }
    }
  }

  lemma RewrittenIs(s: Spot, text: string, left: nat, right: nat, a: string)
    requires left < right < |text| && text[..left] == s.pre && text[right + 1..] == s.post
    ensures Rewritten(text, left, right, a) == Around(s, a)
  {
  }

  lemma PieceAt(ss: seq<string>, j: nat)
    requires Pieces(ss) && j < |ss|
    ensures Piece(ss[j])
  {
  }
}
