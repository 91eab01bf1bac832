/** The Swift / Foundation string operations the tool's path handling uses:
    `split(separator:)` (which omits empty pieces), `hasSuffix`, and
    `replacingOccurrences(of:with:)` with an empty replacement. A string is a
    sequence of single characters: Swift's grapheme-cluster `Character`
    boundaries (which `split` cuts at) and the Unicode canonical equivalence
    that Swift's `==`, `hasSuffix` and `replacingOccurrences` honour are not
    modelled. */
module Strings {

  /** `s` ends with `suffix`. */
  predicate HasSuffix(s: string, suffix: string) {
    |suffix| <= |s| && s[|s| - |suffix|..] == suffix
  }

  /** The length of the run of `s` before its first `sep` (all of `s` if none). */
  function TokenLength(s: string, sep: char): (n: nat)
    ensures n <= |s|
    ensures forall k :: 0 <= k < n ==> s[k] != sep
    ensures n < |s| ==> s[n] == sep
  {
    if s == [] || s[0] == sep then 0 else 1 + TokenLength(s[1..], sep)
  }

  /** Every piece is non-empty and free of `sep`: what Split can return. */
  predicate IsPieceList(parts: seq<string>, sep: char) {
    forall k :: 0 <= k < |parts| ==> parts[k] != [] && sep !in parts[k]
  }

  /** `split(separator: sep)` with empty pieces omitted: the maximal runs of
      non-`sep` characters, left to right. */
  function Split(s: string, sep: char): (parts: seq<string>)
    ensures IsPieceList(parts, sep)
    decreases |s|
  {
    if s == [] then []
    else if s[0] == sep then Split(s[1..], sep)
    else
      var n := TokenLength(s, sep);
      [s[..n]] + Split(s[n..], sep)
  }

  /** The pieces glued together with one `sep` between neighbours. */
  function Join(parts: seq<string>, sep: char): string
  {
    if parts == [] then ""
    else if |parts| == 1 then parts[0]
    else parts[0] + [sep] + Join(parts[1..], sep)
  }

  lemma TokenLengthBefore(a: string, rest: string, sep: char)
    requires sep !in a
    requires rest == [] || rest[0] == sep
    ensures TokenLength(a + rest, sep) == |a|
    decreases |a|
  {
    if a != [] {
      assert (a + rest)[1..] == a[1..] + rest;
      TokenLengthBefore(a[1..], rest, sep);
    }
  }

  /** Splitting undoes joining a list of valid pieces. */
  lemma {:induction false} SplitJoin(parts: seq<string>, sep: char)
    requires IsPieceList(parts, sep)
    ensures Split(Join(parts, sep), sep) == parts
    decreases |parts|
  {
    if parts == [] {
    } else if |parts| == 1 {
      var s := parts[0];
      assert s == s + [];
      TokenLengthBefore(s, [], sep);
      assert s[..|s|] == s && s[|s|..] == [];
    } else {
      var rest := [sep] + Join(parts[1..], sep);
      var s := parts[0] + rest;
      assert s == Join(parts, sep);
      TokenLengthBefore(parts[0], rest, sep);
      assert s[0] != sep by { assert s[0] == parts[0][0]; }
      assert s[..|parts[0]|] == parts[0];
      assert s[|parts[0]|..] == rest;
      assert rest[1..] == Join(parts[1..], sep);
      SplitJoin(parts[1..], sep);
      assert Split(s, sep) == [parts[0]] + parts[1..];
    }
  }

  lemma {:induction false} TokenLengthAppendSep(s: string, t: string, sep: char)
    ensures TokenLength(s + [sep] + t, sep) == TokenLength(s, sep)
    decreases |s|
  {
    if s == [] {
      assert (s + [sep] + t)[0] == sep;
    } else if s[0] != sep {
      assert (s + [sep] + t)[0] == s[0];
      assert (s + [sep] + t)[1..] == s[1..] + [sep] + t;
      TokenLengthAppendSep(s[1..], t, sep);
    } else {
      assert (s + [sep] + t)[0] == sep;
    }
  }

  /** Splitting at a separator splits each side separately: the separator
      itself contributes no piece, and neither does an empty side. */
  lemma {:induction false} SplitConcat(s: string, t: string, sep: char)
    ensures Split(s + [sep] + t, sep) == Split(s, sep) + Split(t, sep)
    decreases |s|
  {
    var u := s + [sep] + t;
    if s == [] {
      assert u[1..] == t;
    } else if s[0] == sep {
      assert u[0] == sep;
      assert u[1..] == s[1..] + [sep] + t;
      SplitConcat(s[1..], t, sep);
    } else {
      assert u[0] == s[0];
      var n := TokenLength(s, sep);
      TokenLengthAppendSep(s, t, sep);
      assert u[..n] == s[..n];
      assert u[n..] == s[n..] + [sep] + t;
      SplitConcat(s[n..], t, sep);
    }
  }

  /** A doubled separator splits like a single one: empty pieces are dropped. */
  lemma SplitDoubledSeparator(a: string, b: string, sep: char)
    ensures Split(a + [sep, sep] + b, sep) == Split(a + [sep] + b, sep)
  {
    assert a + [sep, sep] + b == a + [sep] + ([sep] + b);
    SplitConcat(a, [sep] + b, sep);
    SplitConcat(a, b, sep);
    assert ([sep] + b)[1..] == b;
  }

  /** Every character of `s` is `sep`. */
  predicate AllSep(s: string, sep: char) {
    forall k :: 0 <= k < |s| ==> s[k] == sep
  }

  /** Split finds no piece exactly when the string is only separators. */
  lemma {:induction false} SplitEmptyIff(s: string, sep: char)
    ensures Split(s, sep) == [] <==> AllSep(s, sep)
    decreases |s|
  {
    if s != [] {
      if s[0] == sep {
        SplitEmptyIff(s[1..], sep);
        if AllSep(s[1..], sep) {
          forall k | 0 <= k < |s| ensures s[k] == sep {
            if k > 0 { assert s[k] == s[1..][k - 1]; }
          }
        }
      } else {
        assert !AllSep(s, sep);
      }
    }
  }

  /** `name` starts at index `i` of `path`, right after the start or a
      `sep`, and only separators follow it. */
  predicate LastPieceAt(path: string, name: string, sep: char, i: nat) {
    i + |name| <= |path| && path[i..i + |name|] == name
    && (i == 0 || path[i - 1] == sep)
    && AllSep(path[i + |name|..], sep)
  }

  /** `name` is the last piece of `path`. */
  predicate IsLastPiece(path: string, name: string, sep: char) {
    exists i: nat | i <= |path| :: LastPieceAt(path, name, sep, i)
  }

  /** A last piece of `b` stays the last piece when `a` is put in front,
      provided it does not run into `a`. */
  lemma LastPieceExtend(a: string, b: string, name: string, sep: char, i: nat)
    requires LastPieceAt(b, name, sep, i)
    requires i > 0 || a == [] || a[|a| - 1] == sep
    ensures LastPieceAt(a + b, name, sep, |a| + i)
  {
    var s := a + b;
    assert s[|a| + i..|a| + i + |name|] == b[i..i + |name|];
    assert s[|a| + i + |name|..] == b[i + |name|..];
    if i > 0 {
      assert s[|a| + i - 1] == b[i - 1];
    }
  }

  /** The last piece Split returns sits at the end of the string, before
      trailing separators only. */
  lemma SplitLastPiece(s: string, sep: char)
    requires Split(s, sep) != []
    ensures IsLastPiece(s, Split(s, sep)[|Split(s, sep)| - 1], sep)
  {
    var i := SplitLastPieceIndex(s, sep);
    assert LastPieceAt(s, Split(s, sep)[|Split(s, sep)| - 1], sep, i);
  }

  /** Where the last piece of Split starts. */
  lemma {:induction false} SplitLastPieceIndex(s: string, sep: char) returns (i: nat)
    requires Split(s, sep) != []
    ensures i <= |s| && LastPieceAt(s, Last(Split(s, sep)), sep, i)
    decreases |s|
  {
    if s[0] == sep {
      var j := SplitLastPieceIndex(s[1..], sep);
      i := LastPieceAfterSep(s, sep, j);
    } else {
      var tail := s[TokenLength(s, sep)..];
      if Split(tail, sep) == [] {
        i := LastPieceIsToken(s, sep);
      } else {
        var j := SplitLastPieceIndex(tail, sep);
        i := LastPieceAfterTokenOf(s, sep, j);
      }
    }
  }

  /** The last element of a non-empty sequence. */
  function Last<T>(xs: seq<T>): T
    requires xs != []
  {
    xs[|xs| - 1]
  }

  /** The case of a leading separator: the last piece moves one place right. */
  lemma LastPieceAfterSep(s: string, sep: char, j: nat) returns (i: nat)
    requires s != [] && s[0] == sep && Split(s[1..], sep) != []
    requires j <= |s[1..]| && LastPieceAt(s[1..], Last(Split(s[1..], sep)), sep, j)
    ensures Split(s, sep) != []
    ensures i <= |s| && LastPieceAt(s, Last(Split(s, sep)), sep, i)
  {
    assert Split(s, sep) == Split(s[1..], sep);
    LastPieceExtend([s[0]], s[1..], Last(Split(s[1..], sep)), sep, j);
    assert [s[0]] + s[1..] == s;
    i := 1 + j;
  }

  /** The case of a single piece: it starts the string. */
  lemma LastPieceIsToken(s: string, sep: char) returns (i: nat)
    requires s != [] && s[0] != sep && Split(s[TokenLength(s, sep)..], sep) == []
    ensures Split(s, sep) != []
    ensures i <= |s| && LastPieceAt(s, Last(Split(s, sep)), sep, i)
  {
    var n := TokenLength(s, sep);
    assert Split(s, sep) == [s[..n]];
    SplitEmptyIff(s[n..], sep);
    assert s[..n] == s[0..n];
    i := 0;
  }

  /** The case of a leading piece followed by more: the last piece of the
      rest, shifted past the leading piece. */
  lemma LastPieceAfterTokenOf(s: string, sep: char, j: nat) returns (i: nat)
    requires s != [] && s[0] != sep
    requires Split(s[TokenLength(s, sep)..], sep) != []
    requires j <= |s[TokenLength(s, sep)..]|
    requires LastPieceAt(s[TokenLength(s, sep)..], Last(Split(s[TokenLength(s, sep)..], sep)), sep, j)
    ensures Split(s, sep) != []
    ensures i <= |s| && LastPieceAt(s, Last(Split(s, sep)), sep, i)
  {
    var n := TokenLength(s, sep);
    var token, tail := s[..n], s[n..];
    var pieces := Split(tail, sep);
    SplitOfToken(s, sep);
    LastOfCons(token, pieces);
    PieceListLast(pieces, sep);
    LastPieceAfterToken(token, tail, Last(pieces), sep, j);
    SliceAround(s, n);
    i := n + j;
  }

  /** A string is its two halves around any cut. */
  lemma SliceAround<T>(s: seq<T>, n: nat)
    requires n <= |s|
    ensures s[..n] + s[n..] == s
  {
  }

  /** A string that starts with a piece splits into that piece and the
      pieces of what follows it. */
  lemma SplitOfToken(s: string, sep: char)
    requires s != [] && s[0] != sep
    ensures Split(s, sep) == [s[..TokenLength(s, sep)]] + Split(s[TokenLength(s, sep)..], sep)
  {
  }

  /** Putting an element in front keeps the last element. */
  lemma LastOfCons<T>(x: T, xs: seq<T>)
    requires xs != []
    ensures Last([x] + xs) == Last(xs)
  {
  }

  /** The last of Split's pieces is non-empty and separator-free. */
  lemma PieceListLast(parts: seq<string>, sep: char)
    requires parts != [] && IsPieceList(parts, sep)
    ensures Last(parts) != [] && sep !in Last(parts)
  {
  }

  /** A non-empty, separator-free last piece of `tail`, which starts with a
      separator, stays the last piece after a token is put in front. */
  lemma LastPieceAfterToken(token: string, tail: string, name: string, sep: char, i: nat)
    requires tail != [] && tail[0] == sep
    requires name != [] && sep !in name
    requires LastPieceAt(tail, name, sep, i)
    ensures LastPieceAt(token + tail, name, sep, |token| + i)
  {
    assert i > 0 by {
      assert name[0] in name;
      assert tail[i..i + |name|][0] == name[0];
      assert tail[i] != sep;
    }
    LastPieceExtend(token, tail, name, sep, i);
  }

  /** `pat` occurs in `s` at index `i`. */
  predicate OccursAt(s: string, pat: string, i: nat) {
    i + |pat| <= |s| && s[i..i + |pat|] == pat
  }

  /** No window of `s` equals `pat`. */
  predicate NoOccurrence(s: string, pat: string) {
    forall i: nat | i <= |s| :: !OccursAt(s, pat, i)
  }

  /** `replacingOccurrences(of: pat, with: "")`: occurrences are found left to
      right, without overlap, and deleted. An empty `pat` changes nothing. */
  function RemoveAll(s: string, pat: string): (r: string)
    ensures |r| <= |s|
    decreases |s|
  {
    if pat == [] || |s| < |pat| then s
    else if s[..|pat|] == pat then RemoveAll(s[|pat|..], pat)
    else [s[0]] + RemoveAll(s[1..], pat)
  }

  /** A prefix free of the pattern's first character is kept as it is. */
  lemma {:induction false} RemoveAllKeepsPrefix(a: string, b: string, pat: string)
    requires pat != [] && pat[0] !in a
    ensures RemoveAll(a + b, pat) == a + RemoveAll(b, pat)
    decreases |a|
  {
    if a != [] {
      var s := a + b;
      assert s[1..] == a[1..] + b;
      if |s| >= |pat| {
        assert s[..|pat|][0] == a[0] != pat[0];
        RemoveAllKeepsPrefix(a[1..], b, pat);
        assert [a[0]] + a[1..] == a;
      } else {
        assert RemoveAll(b, pat) == b;
      }
    } else {
      assert a + b == b;
    }
  }

  /** A leading occurrence is deleted. */
  lemma RemoveAllDropsLeading(b: string, pat: string)
    requires pat != []
    ensures RemoveAll(pat + b, pat) == RemoveAll(b, pat)
  {
    assert (pat + b)[..|pat|] == pat && (pat + b)[|pat|..] == b;
  }

  /** A string holding no occurrence is left unchanged. */
  lemma {:induction false} RemoveAllNoOccurrence(s: string, pat: string)
    requires NoOccurrence(s, pat)
    ensures RemoveAll(s, pat) == s
    decreases |s|
  {
    if pat != [] && |s| >= |pat| {
      assert !OccursAt(s, pat, 0);
      NoOccurrenceTail(s, pat);
      RemoveAllNoOccurrence(s[1..], pat);
    }
  }

  /** When the first character of `pat` does not recur inside it, appending
      `pat` to a string without occurrences creates exactly one, which
      RemoveAll deletes: removal then acts as stripping the suffix. */
  lemma RemoveAllStripsSuffix(s: string, pat: string)
    requires pat != []
    requires forall k :: 0 < k < |pat| ==> pat[k] != pat[0]
    requires NoOccurrence(s, pat)
    ensures RemoveAll(s + pat, pat) == s
  {
    assert s + pat == s + pat + [];
    RemoveAllAtOccurrence(s, [], pat);
  }

  /** Dropping the first character of an occurrence-free string keeps it so. */
  lemma NoOccurrenceTail(a: string, pat: string)
    requires a != [] && NoOccurrence(a, pat)
    ensures NoOccurrence(a[1..], pat)
  {
    forall i: nat | i <= |a[1..]| ensures !OccursAt(a[1..], pat, i) {
      assert !OccursAt(a, pat, i + 1);
      if i + |pat| <= |a[1..]| {
        assert a[1..][i..i + |pat|] == a[i + 1..i + 1 + |pat|];
      }
    }
  }

  /** A string that does not start with an occurrence keeps its first
      character. */
  lemma RemoveAllKeepsHead(t: string, pat: string)
    requires pat != [] && |pat| <= |t| && t[..|pat|] != pat
    ensures RemoveAll(t, pat) == [t[0]] + RemoveAll(t[1..], pat)
  {
  }

  /** When the first character of `pat` does not recur inside it, the first
      occurrence after an occurrence-free prefix `a` is deleted, `a` is kept,
      and removal carries on in what follows. */
  lemma {:induction false} RemoveAllAtOccurrence(a: string, b: string, pat: string)
    requires pat != []
    requires forall k :: 0 < k < |pat| ==> pat[k] != pat[0]
    requires NoOccurrence(a, pat)
    ensures RemoveAll(a + pat + b, pat) == a + RemoveAll(b, pat)
    decreases |a|
  {
    if a == [] {
      assert a + pat + b == pat + b;
      RemoveAllDropsLeading(b, pat);
    } else {
      RemoveAllKeepsFirstOfPrefix(a, b, pat);
      NoOccurrenceTail(a, pat);
      RemoveAllAtOccurrence(a[1..], b, pat);
      assert [a[0]] + (a[1..] + RemoveAll(b, pat)) == a + RemoveAll(b, pat);
    }
  }

  /** Before the occurrence that follows an occurrence-free prefix, the
      prefix's first character is kept. */
  lemma RemoveAllKeepsFirstOfPrefix(a: string, b: string, pat: string)
    requires pat != [] && a != []
    requires forall k :: 0 < k < |pat| ==> pat[k] != pat[0]
    requires NoOccurrence(a, pat)
    ensures RemoveAll(a + pat + b, pat) == [a[0]] + RemoveAll(a[1..] + pat + b, pat)
  {
    var t := a + pat + b;
    if |a| >= |pat| {
      assert !OccursAt(a, pat, 0);
      assert t[..|pat|] == a[..|pat|];
    } else {
      assert t[..|pat|][|a|] == pat[0] != pat[|a|];
    }
    RemoveAllKeepsHead(t, pat);
    assert t[1..] == a[1..] + pat + b;
  }

}
