/** String comparison and splitting, as the other modules use them. */
module Strings {
  import SeqSort

  /** strcmp on bytes. */
  function StrCmp(a: string, b: string): int {
    if a == "" then if b == "" then 0 else -1
    else if b == "" then 1
    else if a[0] != b[0] then a[0] as int - b[0] as int
    else StrCmp(a[1..], b[1..])
  }

  lemma {:induction false} StrCmpSign(a: string, b: string)
    ensures StrCmp(a, b) <= 0 <==> StrCmp(b, a) >= 0
    ensures StrCmp(a, b) == 0 <==> a == b
    decreases |a|
  {
    if a != "" && b != "" && a[0] == b[0] {
      StrCmpSign(a[1..], b[1..]);
      assert a == [a[0]] + a[1..] && b == [b[0]] + b[1..];
    }
  }

  lemma {:induction false} StrCmpTransitive(a: string, b: string, c: string)
    requires StrCmp(a, b) <= 0 && StrCmp(b, c) <= 0
    ensures StrCmp(a, c) <= 0
    decreases |a|
  {
    if a != "" && b != "" && c != "" && a[0] == b[0] == c[0] {
      StrCmpTransitive(a[1..], b[1..], c[1..]);
    }
  }

  lemma StrCmpIsComparator()
    ensures SeqSort.Comparator(StrCmp)
  {
    forall a: string, b: string ensures StrCmp(a, b) <= 0 <==> StrCmp(b, a) >= 0 {
      StrCmpSign(a, b);
    }
    forall a: string, b: string, c: string | StrCmp(a, b) <= 0 && StrCmp(b, c) <= 0 ensures StrCmp(a, c) <= 0 {
      StrCmpTransitive(a, b, c);
    }
  }

  /** The order is that of dictionaries: the first difference decides, and a beginning comes before the whole. */
  lemma {:induction false} StrCmpIs(a: string, b: string)
    ensures StrCmp(a, b) < 0
       <==> a < b || exists k :: 0 <= k < |a| && k < |b| && a[..k] == b[..k] && a[k] < b[k]
    decreases |a|
  {
    if a != "" && b != "" && a[0] == b[0] {
      StrCmpIs(a[1..], b[1..]);
      var c, d := a[1..], b[1..];
      assert a == [a[0]] + c && b == [a[0]] + d;
      if k :| 0 <= k < |c| && k < |d| && c[..k] == d[..k] && c[k] < d[k] {
        assert a[..k + 1] == [a[0]] + c[..k] && b[..k + 1] == [a[0]] + d[..k];
        assert a[k + 1] < b[k + 1];
      }
      if k :| 0 <= k < |a| && k < |b| && a[..k] == b[..k] && a[k] < b[k] {
        assert c[..k - 1] == a[..k][1..] && d[..k - 1] == b[..k][1..];
        assert c[k - 1] < d[k - 1];
      }
    } else if a != "" && b != "" {
      assert a[..0] == b[..0];
      forall k | 0 < k < |a| && k < |b| ensures a[..k] != b[..k] {
        assert a[..k][0] != b[..k][0];
      }
    }
  }

  /** StringSplit at a separator: empty pieces are kept. */
  function Split(s: string, sep: char): (r: seq<string>)
    ensures r != []
    ensures forall i :: 0 <= i < |r| ==> |r[i]| <= |s|
  {
    if s == "" then [""]
    else if s[0] == sep then [""] + Split(s[1..], sep)
    else
      var rest := Split(s[1..], sep);
      [[s[0]] + rest[0]] + rest[1..]
  }

  /** Pieces with the separator between them. */
  function Joined(pieces: seq<string>, sep: char): string
    requires pieces != []
  {
    if |pieces| == 1 then pieces[0] else pieces[0] + [sep] + Joined(pieces[1..], sep)
  }

  lemma JoinedInFront(c: char, pieces: seq<string>, sep: char)
    requires pieces != []
    ensures Joined([[c] + pieces[0]] + pieces[1..], sep) == [c] + Joined(pieces, sep)
  {
    var more := [[c] + pieces[0]] + pieces[1..];
    assert more[1..] == pieces[1..];
    if |pieces| > 1 {
      var rest := Joined(pieces[1..], sep);
      assert [c] + pieces[0] + [sep] + rest == [c] + (pieces[0] + [sep] + rest);
    }
  }

  /** The pieces are without the separator, and with it between them they are the text again. */
  lemma {:induction false} SplitJoins(s: string, sep: char)
    ensures Joined(Split(s, sep), sep) == s
    ensures forall i :: 0 <= i < |Split(s, sep)| ==> sep !in Split(s, sep)[i]
    decreases |s|
  {
    hide Joined;
    if s == "" {
      OnePiece("", sep);
    } else {
      var rest := Split(s[1..], sep);
      SplitJoins(s[1..], sep);
      assert s == [s[0]] + s[1..];
      if s[0] == sep {
        EmptyFirst(rest, sep);
      } else {
        JoinedInFront(s[0], rest, sep);
      }
    }
  }

  lemma OnePiece(p: string, sep: char)
    ensures Joined([p], sep) == p
  {
  }

  lemma EmptyFirst(pieces: seq<string>, sep: char)
    requires pieces != []
    ensures Joined([""] + pieces, sep) == [sep] + Joined(pieces, sep)
  {
    assert ([""] + pieces)[1..] == pieces;
  }

  /** Pieces without the separator are found again. */
  lemma {:induction false} JoinedSplits(pieces: seq<string>, sep: char)
    requires pieces != [] && forall i :: 0 <= i < |pieces| ==> sep !in pieces[i]
    ensures Split(Joined(pieces, sep), sep) == pieces
    decreases |pieces|, |pieces[0]|
  {
    var p, s := pieces[0], Joined(pieces, sep);
    if p == "" {
      if |pieces| == 1 {
        assert pieces == [""];
      } else {
        var more := pieces[1..];
        JoinedSplits(more, sep);
        assert "" + [sep] + Joined(more, sep) == [sep] + Joined(more, sep);
        assert s[1..] == Joined(more, sep) && pieces == [""] + more;
      }
    } else {
      var less := [p[1..]] + pieces[1..];
      assert less[1..] == pieces[1..] && p == [p[0]] + p[1..] && p[0] in p;
      JoinedInFront(p[0], less, sep);
      assert [[p[0]] + less[0]] + less[1..] == pieces;
      JoinedSplits(less, sep);
      assert s[1..] == Joined(less, sep);
    }
  }

  /** The pieces found, the one being read, and those to come. */
  ghost function Continued(done: seq<string>, cur: string, more: seq<string>): seq<string>
    requires more != []
  {
    done + [cur + more[0]] + more[1..]
  }

  lemma ContinuedFrom(done: seq<string>, cur: string, more: seq<string>, c: char)
    requires more != []
    ensures Continued([], "", more) == more
    ensures Continued(done, cur, [""] + more) == Continued(done + [cur], "", more)
    ensures Continued(done, cur, [[c] + more[0]] + more[1..]) == Continued(done, cur + [c], more)
    ensures Continued(done, cur, [""]) == done + [cur]
  {
    assert "" + more[0] == more[0] && cur + "" == cur && ([""] + more)[1..] == more;
    assert cur + ([c] + more[0]) == cur + [c] + more[0];
    assert ([[c] + more[0]] + more[1..])[1..] == more[1..] && [""][1..] == [];
  }

  /** StringSplit, by its loop. */
  method StringSplit(s: string, sep: char) returns (r: seq<string>)
    ensures r == Split(s, sep)
  {
    hide Continued;
    r := [];
    var cur, rest := "", s;
    ContinuedFrom([], "", Split(s, sep), sep);
    while rest != ""
      invariant Continued(r, cur, Split(rest, sep)) == Split(s, sep)
      decreases |rest|
    {
      ContinuedFrom(r, cur, Split(rest[1..], sep), rest[0]);
      if rest[0] == sep {
        r, cur := r + [cur], "";
      } else {
        cur := cur + [rest[0]];
      }
      rest := rest[1..];
    }
    ContinuedFrom(r, cur, [""], sep);
    r := r + [cur];
  }
}
