/**
 * The parts of Go's `strings` package that the scraper relies on: Index and
 * Contains, ReplaceAll, Trim (cutset), Split and Join.  Go strings are byte
 * strings; here a string is a sequence of characters, so "rune" and
 * "character" coincide.
 */
module GoStrings {

  /** `sub` occurs in `s` starting at position `i`. */
  predicate OccursAt(s: string, sub: string, i: int)
  {
    0 <= i && i + |sub| <= |s| && s[i..i + |sub|] == sub
  }

  /** The first occurrence of `sub` in `s` at or after `from`, or -1. */
  function IndexFrom(s: string, sub: string, from: nat): (r: int)
    decreases |s| - from
    ensures r == -1 || (from <= r && OccursAt(s, sub, r))
    ensures r >= 0 ==> forall j :: from <= j < r ==> !OccursAt(s, sub, j)
    ensures r == -1 ==> forall j :: from <= j ==> !OccursAt(s, sub, j)
  {
    if from + |sub| > |s| then -1
    else if s[from..from + |sub|] == sub then from
    else IndexFrom(s, sub, from + 1)
  }

  /** strings.Index: the first occurrence of `sub` in `s`, or -1. */
  function Index(s: string, sub: string): (r: int)
    ensures r == -1 || OccursAt(s, sub, r)
    ensures r >= 0 ==> forall j :: 0 <= j < r ==> !OccursAt(s, sub, j)
    ensures r == -1 ==> forall j :: !OccursAt(s, sub, j)
  {
    IndexFrom(s, sub, 0)
  }

  /** strings.Contains: `sub` occurs somewhere in `s` (the empty string occurs everywhere). */
  predicate Contains(s: string, sub: string)
  {
    Index(s, sub) >= 0
  }

  lemma ContainsIff(s: string, sub: string)
    ensures Contains(s, sub) <==> exists i :: OccursAt(s, sub, i)
  {
    if Contains(s, sub) {
      assert OccursAt(s, sub, Index(s, sub));
    }
  }

  /** A string lacking some character of `sub` does not contain `sub`. */
  lemma NotContainsByChar(s: string, sub: string, k: nat)
    requires k < |sub| && sub[k] !in s
    ensures !Contains(s, sub)
  {
  }

  // ---------------------------------------------------------------------------
  // strings.Split and strings.Join

  /** strings.Split with a non-empty separator: the pieces between the occurrences of `sep`. */
  function SplitNonEmpty(s: string, sep: string): (r: seq<string>)
    requires |sep| > 0
    decreases |s|
    ensures |r| > 0
  {
    var i := Index(s, sep);
    if i < 0 then [s] else [s[..i]] + SplitNonEmpty(s[i + |sep|..], sep)
  }

  /** strings.Split with an empty separator: one string per character; "" gives no pieces. */
  function Explode(s: string): (r: seq<string>)
    ensures |r| == |s|
    ensures forall i :: 0 <= i < |s| ==> r[i] == [s[i]]
  {
    seq(|s|, i requires 0 <= i < |s| => [s[i]])
  }

  /** strings.Split(s, sep). */
  function Split(s: string, sep: string): seq<string>
  {
    if sep == [] then Explode(s) else SplitNonEmpty(s, sep)
  }

  /** strings.Join: `sep` placed between consecutive fragments. */
  function Join(fs: seq<string>, sep: string): string
  {
    if |fs| == 0 then ""
    else if |fs| == 1 then fs[0]
    else fs[0] + sep + Join(fs[1..], sep)
  }

  /** Concatenation of all fragments, with nothing in between. */
  function Concat(fs: seq<string>): string
  {
    if fs == [] then "" else fs[0] + Concat(fs[1..])
  }

  /** Every fragment followed by `sep`. */
  function Terminated(fs: seq<string>, sep: string): (r: seq<string>)
    ensures |r| == |fs|
    ensures forall i :: 0 <= i < |fs| ==> r[i] == fs[i] + sep
  {
    seq(|fs|, i requires 0 <= i < |fs| => fs[i] + sep)
  }

  /** Appending one more fragment to a join adds exactly one separator before it. */
  lemma {:induction false} JoinSnoc(fs: seq<string>, f: string, sep: string)
    requires |fs| > 0
    ensures Join(fs + [f], sep) == Join(fs, sep) + sep + f
  {
    if |fs| == 1 {
      assert fs + [f] == [fs[0], f];
    } else {
      assert (fs + [f])[1..] == fs[1..] + [f];
      JoinSnoc(fs[1..], f, sep);
    }
  }

  /**
   * The separator goes strictly between the fragments: the join followed by one
   * separator is every fragment followed by a separator, so N fragments receive
   * N - 1 separators; no fragments give "".
   */
  lemma {:induction false} JoinSeparatesStrictly(fs: seq<string>, sep: string)
    ensures |fs| == 0 ==> Join(fs, sep) == ""
    ensures |fs| > 0 ==> Join(fs, sep) + sep == Concat(Terminated(fs, sep))
  {
    if |fs| == 1 {
      assert Terminated(fs, sep)[1..] == [];
    } else if |fs| > 1 {
      JoinSeparatesStrictly(fs[1..], sep);
      assert Terminated(fs, sep)[1..] == Terminated(fs[1..], sep);
    }
  }

  /** Appending one more fragment to a concatenation appends its text. */
  lemma {:induction false} ConcatSnoc(fs: seq<string>, f: string)
    ensures Concat(fs + [f]) == Concat(fs) + f
  {
    if fs == [] {
      assert [f][1..] == [];
    } else {
      assert (fs + [f])[1..] == fs[1..] + [f];
      ConcatSnoc(fs[1..], f);
    }
  }

  /** One more terminated fragment appends the fragment and one separator. */
  lemma ConcatTerminatedSnoc(fs: seq<string>, f: string, sep: string)
    ensures Concat(Terminated(fs + [f], sep)) == Concat(Terminated(fs, sep)) + (f + sep)
  {
    assert Terminated(fs + [f], sep) == Terminated(fs, sep) + [f + sep];
    ConcatSnoc(Terminated(fs, sep), f + sep);
  }

  /** The length of a join: all fragments plus N - 1 separators. */
  lemma {:induction false} JoinLength(fs: seq<string>, sep: string)
    requires |fs| > 0
    ensures |Join(fs, sep)| == |Concat(fs)| + (|fs| - 1) * |sep|
  {
    if |fs| > 1 {
      JoinLength(fs[1..], sep);
    }
  }

  /** Splitting at a non-empty separator and joining with it again gives back the string. */
  lemma {:induction false} SplitJoin(s: string, sep: string)
    requires |sep| > 0
    ensures Join(Split(s, sep), sep) == s
    decreases |s|
  {
    var i := Index(s, sep);
    if i >= 0 {
      var rest := s[i + |sep|..];
      SplitJoin(rest, sep);
      assert s == s[..i] + sep + rest by {
        assert s[i..i + |sep|] == sep;
      }
    }
  }

  /** No piece produced by splitting at a non-empty separator contains the separator. */
  lemma {:induction false} SplitPiecesAvoidSeparator(s: string, sep: string)
    requires |sep| > 0
    ensures forall p :: p in Split(s, sep) ==> !Contains(p, sep)
    decreases |s|
  {
    var i := Index(s, sep);
    if i >= 0 {
      SplitPiecesAvoidSeparator(s[i + |sep|..], sep);
      var head := s[..i];
      if Contains(head, sep) {
        var j := Index(head, sep);
        assert OccursAt(head, sep, j);
        forall k | 0 <= k < |sep| ensures s[j + k] == sep[k] {
          assert s[j + k] == head[j + k];
        }
        assert s[j..j + |sep|] == sep;
        assert j < i && OccursAt(s, sep, j);
        assert false;
      }
    }
  }

  // ---------------------------------------------------------------------------
  // strings.ReplaceAll

  /** ReplaceAll with a non-empty target: every non-overlapping occurrence, left to right. */
  function ReplaceNonEmpty(s: string, target: string, replacement: string): string
    requires |target| > 0
    decreases |s|
  {
    var i := Index(s, target);
    if i < 0 then s
    else s[..i] + replacement + ReplaceNonEmpty(s[i + |target|..], target, replacement)
  }

  /** ReplaceAll with an empty target: the replacement before every character and at the end. */
  function Interleave(s: string, replacement: string): string
  {
    if s == [] then replacement else replacement + [s[0]] + Interleave(s[1..], replacement)
  }

  /** strings.ReplaceAll(s, target, replacement). */
  function ReplaceAll(s: string, target: string, replacement: string): (r: string)
    ensures target != [] && !Contains(s, target) ==> r == s
  {
    if target == [] then Interleave(s, replacement) else ReplaceNonEmpty(s, target, replacement)
  }

  /** Splitting at the empty separator and joining with it again gives back the string. */
  lemma {:induction false} ExplodeJoin(s: string)
    ensures Join(Split(s, ""), "") == s
    decreases |s|
  {
    if |s| > 1 {
      ExplodeJoin(s[1..]);
      assert Explode(s)[1..] == Explode(s[1..]);
      assert s == [s[0]] + s[1..];
    }
  }

  /** Replacing a non-empty target is splitting at it and joining with the replacement. */
  lemma {:induction false} ReplaceIsSplitJoin(s: string, target: string, replacement: string)
    requires |target| > 0
    ensures ReplaceAll(s, target, replacement) == Join(Split(s, target), replacement)
    decreases |s|
  {
    var i := Index(s, target);
    if i >= 0 {
      var rest := s[i + |target|..];
      ReplaceIsSplitJoin(rest, target, replacement);
    }
  }

  /** A string that starts with the target and has no later occurrence of it. */
  lemma ReplaceLeadingTarget(s: string, rest: string, target: string, replacement: string)
    requires |target| > 0 && s == target + rest && !Contains(rest, target)
    ensures ReplaceAll(s, target, replacement) == replacement + rest
  {
    assert OccursAt(s, target, 0);
    assert Index(s, target) == 0;
    assert s[|target|..] == rest;
    assert ReplaceNonEmpty(rest, target, replacement) == rest;
    assert ReplaceNonEmpty(s, target, replacement) == s[..0] + replacement + ReplaceNonEmpty(rest, target, replacement);
  }

  /** Replacing a string by itself changes nothing (Go returns early when old == new). */
  lemma {:induction false} ReplaceBySelf(s: string, target: string)
    ensures ReplaceAll(s, target, target) == s
    decreases |s|
  {
    if target == [] {
      if s != [] {
        ReplaceBySelf(s[1..], target);
        assert s == [s[0]] + s[1..];
      }
    } else {
      var i := Index(s, target);
      if i >= 0 {
        var rest := s[i + |target|..];
        ReplaceBySelf(rest, target);
        assert s == s[..i] + target + rest by {
          assert s[i..i + |target|] == target;
        }
      }
    }
  }

  /** The empty-target rule: the length grows by one replacement per character plus one. */
  /**
   * Replacing the empty string puts the replacement before every character and
   * once more at the end.
   */
  lemma {:induction false} InterleaveContents(s: string, replacement: string)
    ensures ReplaceAll(s, "", replacement) == replacement + Concat(Terminated(Explode(s), replacement))
    decreases |s|
  {
    if s != [] {
      InterleaveContents(s[1..], replacement);
      assert Terminated(Explode(s), replacement)[1..] == Terminated(Explode(s[1..]), replacement);
    }
  }

  lemma {:induction false} InterleaveLength(s: string, replacement: string)
    ensures |ReplaceAll(s, "", replacement)| == |s| + (|s| + 1) * |replacement|
  {
    if s != [] {
      InterleaveLength(s[1..], replacement);
    }
  }

  // ---------------------------------------------------------------------------
  // strings.Trim with a cutset

  /** strings.TrimLeft: drop leading characters that belong to `cutset`. */
  function TrimLeft(s: string, cutset: string): (r: string)
    ensures |r| <= |s| && r == s[|s| - |r|..]
    ensures forall k :: 0 <= k < |s| - |r| ==> s[k] in cutset
    ensures r == [] || r[0] !in cutset
  {
    if |s| > 0 && s[0] in cutset then TrimLeft(s[1..], cutset) else s
  }

  /** strings.TrimRight: drop trailing characters that belong to `cutset`. */
  function TrimRight(s: string, cutset: string): (r: string)
    ensures |r| <= |s| && r == s[..|r|]
    ensures forall k :: |r| <= k < |s| ==> s[k] in cutset
    ensures r == [] || r[|r| - 1] !in cutset
  {
    if |s| > 0 && s[|s| - 1] in cutset then TrimRight(s[..|s| - 1], cutset) else s
  }

  /** `r` is the infix of `s` at `i`, and everything outside it belongs to `cutset`. */
  predicate StripsTo(s: string, cutset: string, i: int, r: string)
  {
    0 <= i <= |s| - |r| && r == s[i..i + |r|]
    && (forall k :: 0 <= k < i ==> s[k] in cutset)
    && (forall k :: i + |r| <= k < |s| ==> s[k] in cutset)
  }

  /**
   * strings.Trim(s, cutset): the longest infix of `s` obtained by removing
   * characters of `cutset` from both ends; an empty `s` or `cutset` returns `s`.
   */
  function Trim(s: string, cutset: string): (r: string)
    ensures exists i :: StripsTo(s, cutset, i, r)
    ensures r == [] || (r[0] !in cutset && r[|r| - 1] !in cutset)
    ensures cutset == [] ==> r == s
  {
    if s == [] || cutset == [] then
      assert StripsTo(s, cutset, 0, s);
      s
    else
      TrimLeftRightStrips(s, cutset);
      TrimRight(TrimLeft(s, cutset), cutset)
  }

  /** Trimming left then right leaves an infix whose surroundings all belong to `cutset`. */
  lemma TrimLeftRightStrips(s: string, cutset: string)
    ensures StripsTo(s, cutset, |s| - |TrimLeft(s, cutset)|, TrimRight(TrimLeft(s, cutset), cutset))
  {
    StripsInTwoSteps(s, TrimLeft(s, cutset), TrimRight(TrimLeft(s, cutset), cutset), cutset);
  }

  lemma StripsInTwoSteps(s: string, left: string, r: string, cutset: string)
    requires |left| <= |s| && left == s[|s| - |left|..]
    requires forall k :: 0 <= k < |s| - |left| ==> s[k] in cutset
    requires |r| <= |left| && r == left[..|r|]
    requires forall k :: |r| <= k < |left| ==> left[k] in cutset
    ensures StripsTo(s, cutset, |s| - |left|, r)
  {
    var i := |s| - |left|;
    forall k | i + |r| <= k < |s| ensures s[k] in cutset {
      assert s[k] == left[k - i];
    }
  }

  /** Trimming twice by the same cutset is trimming once. */
  lemma TrimIdempotent(s: string, cutset: string)
    ensures Trim(Trim(s, cutset), cutset) == Trim(s, cutset)
  {
    var r := Trim(s, cutset);
    if r != [] && cutset != [] {
      assert TrimLeft(r, cutset) == r;
      assert TrimRight(r, cutset) == r;
    }
  }

  /**
   * Trim removes exactly a head and a tail made of cutset characters from a
   * text that neither starts nor ends with one.
   */
  lemma TrimDropsEnds(h: string, a: string, t: string, cutset: string)
    requires a != [] && a[0] !in cutset && a[|a| - 1] !in cutset
    requires forall k :: 0 <= k < |h| ==> h[k] in cutset
    requires forall k :: 0 <= k < |t| ==> t[k] in cutset
    ensures Trim(h + a + t, cutset) == a
  {
    var s := h + a + t;
    var r := Trim(s, cutset);
    var i :| StripsTo(s, cutset, i, r);
    assert s[|h|] !in cutset && s[|h| + |a| - 1] !in cutset;
    assert i == |h|;
    assert |r| == |a|;
    assert s[|h|..|h| + |a|] == a;
  }

  /** Every cutset of `cutsets` applied with Trim, in list order, each to the previous output. */
  function TrimEach(s: string, cutsets: seq<string>): (r: string)
    ensures |r| <= |s|
    ensures cutsets != [] && r != [] ==> r[0] !in cutsets[|cutsets| - 1] && r[|r| - 1] !in cutsets[|cutsets| - 1]
  {
    if cutsets == [] then s
    else Trim(TrimEach(s, cutsets[..|cutsets| - 1]), cutsets[|cutsets| - 1])
  }
}
