/** The string splitting that the tool relies on: `strings.Split(s, ",")` from Go's
    standard library, with a single-character separator. */
module Text {

  /** Number of occurrences of `c` in `s`. */
  function Count(s: string, c: char): nat
  {
    if s == [] then 0 else (if s[0] == c then 1 else 0) + Count(s[1..], c)
  }

  /** Index of the first `c` in `s`, or `|s|` when `s` holds no `c`. */
  function IndexOf(s: string, c: char): (i: nat)
    ensures i <= |s|
    ensures forall j :: 0 <= j < i ==> s[j] != c
    ensures i < |s| ==> s[i] == c
  {
    if s == [] then 0 else if s[0] == c then 0 else 1 + IndexOf(s[1..], c)
  }

  /** `strings.Split(s, [sep])`: the pieces of `s` between the separators, in order. An empty `s`
      gives one empty piece, and two adjacent separators give an empty piece between them. */
  function Split(s: string, sep: char): (pieces: seq<string>)
    ensures |pieces| >= 1
    decreases |s|
  {
    var i := IndexOf(s, sep);
    if i == |s| then [s] else [s[..i]] + Split(s[i + 1..], sep)
  }

  /** `strings.Join(pieces, [sep])`. */
  function Join(pieces: seq<string>, sep: char): string
  {
    if pieces == [] then []
    else if |pieces| == 1 then pieces[0]
    else pieces[0] + [sep] + Join(pieces[1..], sep)
  }

  /** True when splitting `s` on `sep` yields an empty piece: `s` is empty, starts or ends with
      the separator, or holds two separators side by side. */
  predicate HasEmptyPiece(s: string, sep: char)
  {
    s == [] || s[0] == sep || s[|s| - 1] == sep ||
    exists j :: 0 <= j < |s| - 1 && s[j] == sep && s[j + 1] == sep
  }

  lemma {:induction false} CountSplitsAtIndex(s: string, c: char)
    ensures IndexOf(s, c) == |s| ==> Count(s, c) == 0
    ensures IndexOf(s, c) < |s| ==> Count(s, c) == 1 + Count(s[IndexOf(s, c) + 1..], c)
  {
    if s != [] && s[0] != c {
      CountSplitsAtIndex(s[1..], c);
      if IndexOf(s[1..], c) < |s| - 1 {
        assert s[1..][IndexOf(s[1..], c) + 1..] == s[IndexOf(s, c) + 1..];
      }
    }
  }

  /** Splitting gives exactly one more piece than there are separators. */
  lemma {:induction false} SplitLength(s: string, sep: char)
    ensures |Split(s, sep)| == Count(s, sep) + 1
    decreases |s|
  {
    CountSplitsAtIndex(s, sep);
    var i := IndexOf(s, sep);
    if i < |s| {
      SplitLength(s[i + 1..], sep);
    }
  }

  /** No piece contains the separator. */
  lemma {:induction false} SplitPiecesHaveNoSeparator(s: string, sep: char)
    ensures forall k :: 0 <= k < |Split(s, sep)| ==> sep !in Split(s, sep)[k]
    decreases |s|
  {
    var i := IndexOf(s, sep);
    if i < |s| {
      SplitPiecesHaveNoSeparator(s[i + 1..], sep);
      var rest := Split(s[i + 1..], sep);
      assert Split(s, sep) == [s[..i]] + rest;
      forall k | 0 <= k < |Split(s, sep)| ensures sep !in Split(s, sep)[k] {
        if k == 0 {
          assert forall j :: 0 <= j < i ==> s[..i][j] != sep;
        } else {
          assert Split(s, sep)[k] == rest[k - 1];
        }
      }
    }
  }

  /** Joining a piece in front of a non-empty list puts one separator between them. */
  lemma JoinCons(p: string, rest: seq<string>, sep: char)
    requires |rest| >= 1
    ensures Join([p] + rest, sep) == p + [sep] + Join(rest, sep)
  {
    assert ([p] + rest)[1..] == rest;
  }

  /** One step of `Split`: the piece before the first separator, then the pieces after it. */
  lemma SplitAtFirst(s: string, sep: char)
    requires IndexOf(s, sep) < |s|
    ensures Split(s, sep) == [s[..IndexOf(s, sep)]] + Split(s[IndexOf(s, sep) + 1..], sep)
  {
  }

  lemma AroundIndex(s: string, i: nat)
    requires i < |s|
    ensures s == s[..i] + [s[i]] + s[i + 1..]
  {
  }

  /** Joining the pieces with the separator gives back the original string. */
  lemma {:induction false} JoinSplit(s: string, sep: char)
    ensures Join(Split(s, sep), sep) == s
    decreases |s|
  {
    var i := IndexOf(s, sep);
    if i < |s| {
      var t := s[i + 1..];
      JoinSplit(t, sep);
      SplitAtFirst(s, sep);
      JoinCons(s[..i], Split(t, sep), sep);
      AroundIndex(s, i);
    }
  }

  lemma {:induction false} IndexOfPastPrefix(p: string, sep: char, t: string)
    requires sep !in p
    ensures IndexOf(p + [sep] + t, sep) == |p|
    decreases |p|
  {
    if p != [] {
      assert (p + [sep] + t)[1..] == p[1..] + [sep] + t;
      IndexOfPastPrefix(p[1..], sep, t);
    }
  }

  /** The converse round trip: a non-empty list of separator-free pieces, joined and split again,
      is the same list. */
  lemma {:induction false} SplitJoin(pieces: seq<string>, sep: char)
    requires |pieces| >= 1
    requires forall k :: 0 <= k < |pieces| ==> sep !in pieces[k]
    ensures Split(Join(pieces, sep), sep) == pieces
    decreases |pieces|
  {
    if |pieces| > 1 {
      var p, rest := pieces[0], pieces[1..];
      var s := Join(pieces, sep);
      assert s == p + [sep] + Join(rest, sep);
      IndexOfPastPrefix(p, sep, Join(rest, sep));
      assert s[..|p|] == p;
      assert s[|p| + 1..] == Join(rest, sep);
      SplitJoin(rest, sep);
      assert pieces == [p] + rest;
    }
  }

  /** Before a separator at `i > 0`, a shape of the rest is a shape of the whole string. */
  lemma EmptyPieceShapeBeforeSeparator(s: string, sep: char, i: nat)
    requires 0 < i < |s| && s[i] == sep
    requires HasEmptyPiece(s[i + 1..], sep)
    ensures HasEmptyPiece(s, sep)
  {
    var t := s[i + 1..];
    if t == [] {
      assert s[|s| - 1] == sep;
    } else if t[0] == sep {
      assert s[i] == sep && s[i + 1] == sep;
    } else if t[|t| - 1] == sep {
      assert s[|s| - 1] == sep;
    } else {
      var j :| 0 <= j < |t| - 1 && t[j] == sep && t[j + 1] == sep;
      assert s[i + 1 + j] == sep && s[i + 1 + j + 1] == sep;
    }
  }

  /** An empty piece among the pieces of `s` can only come from an empty `s`, a leading or
      trailing separator, or two adjacent separators. */
  lemma {:induction false} EmptyPieceOnlyFromSeparators(s: string, sep: char)
    requires [] in Split(s, sep)
    ensures HasEmptyPiece(s, sep)
    decreases |s|
  {
    var i := IndexOf(s, sep);
    if i == |s| {
      assert Split(s, sep) == [s];
    } else if i != 0 {
      var t := s[i + 1..];
      SplitAtFirst(s, sep);
      assert s[..i] != [];
      assert [] in Split(t, sep);
      EmptyPieceOnlyFromSeparators(t, sep);
      EmptyPieceShapeBeforeSeparator(s, sep, i);
    }
  }

  /** A string without the separator has none of those shapes. */
  lemma NoSeparatorNoEmptyPiece(s: string, sep: char)
    requires s != [] && forall j :: 0 <= j < |s| ==> s[j] != sep
    ensures !HasEmptyPiece(s, sep)
  {
  }

  /** Past a first separator at `i > 0`, the rest is empty or still has one of those shapes. */
  lemma EmptyPieceShapeAfterSeparator(s: string, sep: char, i: nat)
    requires HasEmptyPiece(s, sep)
    requires 0 < i < |s| && s[i] == sep && forall j :: 0 <= j < i ==> s[j] != sep
    ensures s[i + 1..] == [] || HasEmptyPiece(s[i + 1..], sep)
  {
    var t := s[i + 1..];
    if t != [] {
      if s[|s| - 1] == sep {
        assert t[|t| - 1] == sep;
      } else {
        var j :| 0 <= j < |s| - 1 && s[j] == sep && s[j + 1] == sep;
        if j == i {
          assert t[0] == sep;
        } else {
          assert t[j - i - 1] == sep && t[j - i] == sep;
        }
      }
    }
  }

  /** Each of those shapes does produce an empty piece. */
  lemma {:induction false} SeparatorsGiveEmptyPiece(s: string, sep: char)
    requires HasEmptyPiece(s, sep)
    ensures [] in Split(s, sep)
    decreases |s|
  {
    var i := IndexOf(s, sep);
    if i == |s| {
      if s != [] {
        NoSeparatorNoEmptyPiece(s, sep);
        assert false;
      }
    } else if i != 0 {
      EmptyPieceShapeAfterSeparator(s, sep, i);
      var t := s[i + 1..];
      assert Split(s, sep) == [s[..i]] + Split(t, sep);
      if t != [] {
        SeparatorsGiveEmptyPiece(t, sep);
      }
    }
  }

  /** Splitting yields an empty piece exactly when `HasEmptyPiece` holds. */
  lemma {:induction false} EmptyPieceIff(s: string, sep: char)
    ensures [] in Split(s, sep) <==> HasEmptyPiece(s, sep)
  {
    if [] in Split(s, sep) {
      EmptyPieceOnlyFromSeparators(s, sep);
    }
    if HasEmptyPiece(s, sep) {
      SeparatorsGiveEmptyPiece(s, sep);
    }
  }
}
