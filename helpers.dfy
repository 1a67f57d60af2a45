/**
 * helpers.go: placeholder substitution driven by a registry of functions
 * (formatString), and the index rule used to pick one piece of a split (checkKey).
 */
module Helpers {
  import opened GoStrings

  /**
   * A registry value.  Go stores an `interface{}`; formatString recognises two
   * function shapes and skips any other value.  `C` is the type of the
   * caller's constant values (Go's `[]interface{}` elements).
   */
  datatype RegistryValue<!C> =
    | WithConstants(applyWith: (string, seq<C>) -> string)
    | TextOnly(apply: string -> string)
    | Unsupported

  /** One key of the registry map and the value stored under it. */
  datatype Entry<!C> = Entry(key: string, value: RegistryValue<C>)

  /**
   * A Go map of registry functions, written as the order in which one `range`
   * over the map visits its entries.  Go leaves that order unspecified, so the
   * lemmas below hold for every order.
   */
  type Registry<!C> = seq<Entry<C>>

  /** The call formatString makes for a registry value of a recognised shape. */
  function Invoke<C>(v: RegistryValue<C>, str: string, constants: seq<C>): string
  {
    match v
    case WithConstants(f) => f(str, constants)
    case TextOnly(f) => f(str)
    case Unsupported => str
  }

  /**
   * One iteration of formatString's loop: the value is invoked only when its
   * key occurs in the current string; a two-argument function receives the
   * constants, a one-argument function only the string, any other value does
   * nothing.
   */
  function ApplyEntry<C>(str: string, e: Entry<C>, constants: seq<C>): (r: string)
    ensures !Contains(str, e.key) ==> r == str
    ensures Contains(str, e.key) && e.value.WithConstants? ==> r == e.value.applyWith(str, constants)
    ensures Contains(str, e.key) && e.value.TextOnly? ==> r == e.value.apply(str)
    ensures e.value.Unsupported? ==> r == str
  {
    if Contains(str, e.key) then Invoke(e.value, str, constants) else str
  }

  /** The string formatString returns when the map is visited in the order `funcs`. */
  function Substitute<C>(str: string, funcs: Registry<C>, constants: seq<C>): string
  {
    if funcs == [] then str
    else ApplyEntry(Substitute(str, funcs[..|funcs| - 1], constants), funcs[|funcs| - 1], constants)
  }

  /** formatString: each entry rewrites the output of the previous ones. */
  method FormatString<C>(str: string, funcs: Registry<C>, constants: seq<C>) returns (r: string)
    ensures r == Substitute(str, funcs, constants)
  {
    r := str;
    for i := 0 to |funcs|
      invariant r == Substitute(str, funcs[..i], constants)
    {
      var e := funcs[i];
      if Contains(r, e.key) {
        match e.value
        case WithConstants(f) =>
          r := f(r, constants);
        case TextOnly(f) =>
          r := f(r);
        case Unsupported =>
      }
      assert funcs[..i + 1][..i] == funcs[..i];
    }
    assert funcs[..|funcs|] == funcs;
  }

  /** Visiting `a` and then `b` is visiting `a + b`. */
  lemma {:induction false} SubstituteAppend<C>(str: string, a: Registry<C>, b: Registry<C>, constants: seq<C>)
    ensures Substitute(str, a + b, constants) == Substitute(Substitute(str, a, constants), b, constants)
  {
    if b == [] {
      assert a + b == a;
    } else {
      var b' := b[..|b| - 1];
      assert (a + b)[..|a + b| - 1] == a + b';
      SubstituteAppend(str, a, b', constants);
    }
  }

  /** A string in which no registry key occurs passes through unchanged. */
  lemma {:induction false} SubstituteNoKey<C>(str: string, funcs: Registry<C>, constants: seq<C>)
    requires forall i :: 0 <= i < |funcs| ==> !Contains(str, funcs[i].key)
    ensures Substitute(str, funcs, constants) == str
  {
    if funcs != [] {
      SubstituteNoKey(str, funcs[..|funcs| - 1], constants);
    }
  }

  /**
   * Independent of the visiting order: when the key of entry `p` is the only
   * key occurring in `str`, and its function's output contains no key, the
   * result is that function applied to `str`.
   */
  lemma SubstituteSingleKey<C>(str: string, funcs: Registry<C>, p: nat, constants: seq<C>)
    requires p < |funcs| && Contains(str, funcs[p].key)
    requires forall i :: 0 <= i < |funcs| && i != p ==> !Contains(str, funcs[i].key)
    requires forall i :: 0 <= i < |funcs| ==> !Contains(Invoke(funcs[p].value, str, constants), funcs[i].key)
    ensures Substitute(str, funcs, constants) == Invoke(funcs[p].value, str, constants)
  {
    var before, after := funcs[..p], funcs[p + 1..];
    assert funcs == before + [funcs[p]] + after;
    SubstituteAppend(str, before + [funcs[p]], after, constants);
    SubstituteAppend(str, before, [funcs[p]], constants);
    SubstituteNoKey(str, before, constants);
    var t := Invoke(funcs[p].value, str, constants);
    assert Substitute(str, before + [funcs[p]], constants) == t by {
      assert Substitute(str, [funcs[p]], constants) == t;
    }
    SubstituteNoKey(t, after, constants);
  }

  /** The path placeholder of the package's own example. */
  function PathPlaceholder(str: string): string
  {
    ReplaceAll(str, "{{PATH}}", "path/to/somewhere")
  }

  /** The example's input and expected output, written as key or replacement plus the unchanged tail. */
  const ExampleTail: string := " should be replaced"
  const ExampleInput: string := "{{PATH}}" + ExampleTail
  const ExampleOutput: string := "path/to/somewhere" + ExampleTail

  lemma PathPlaceholderExample()
    ensures PathPlaceholder(ExampleInput) == ExampleOutput
  {
    NotContainsByChar(ExampleTail, "{{PATH}}", 0);
    ReplaceLeadingTarget(ExampleInput, ExampleTail, "{{PATH}}", "path/to/somewhere");
  }

  /** Of the example's two keys, only the path placeholder occurs in its input. */
  lemma ExampleInputKeys()
    ensures Contains(ExampleInput, "{{PATH}}") && !Contains(ExampleInput, "{{DATE}}")
  {
    assert OccursAt(ExampleInput, "{{PATH}}", 0);
    NotContainsByChar(ExampleInput, "{{DATE}}", 2);
  }

  /** Neither key occurs in the example's output. */
  lemma ExampleOutputKeys()
    ensures !Contains(ExampleOutput, "{{PATH}}") && !Contains(ExampleOutput, "{{DATE}}")
  {
    NotContainsByChar(ExampleOutput, "{{PATH}}", 0);
    NotContainsByChar(ExampleOutput, "{{DATE}}", 0);
  }

  /**
   * The package's example: with "{{PATH}}" mapped to a one-argument function
   * that replaces it by "path/to/somewhere" and "{{DATE}}" mapped to any
   * two-argument function, "{{PATH}} should be replaced" becomes
   * "path/to/somewhere should be replaced", whichever entry is visited first.
   */
  lemma PathExample<C>(date: (string, seq<C>) -> string, constants: seq<C>)
    ensures Substitute(ExampleInput,
                       [Entry("{{PATH}}", TextOnly(PathPlaceholder)), Entry("{{DATE}}", WithConstants(date))],
                       constants)
            == ExampleOutput
    ensures Substitute(ExampleInput,
                       [Entry("{{DATE}}", WithConstants(date)), Entry("{{PATH}}", TextOnly(PathPlaceholder))],
                       constants)
            == ExampleOutput
  {
    var e1: Entry<C> := Entry("{{PATH}}", TextOnly(PathPlaceholder));
    var e2: Entry<C> := Entry("{{DATE}}", WithConstants(date));
    PathPlaceholderExample();
    ExampleInputKeys();
    ExampleOutputKeys();
    SubstituteSingleKey(ExampleInput, [e1, e2], 0, constants);
    SubstituteSingleKey(ExampleInput, [e2, e1], 1, constants);
  }

  // ---------------------------------------------------------------------------
  // checkKey

  /**
   * checkKey: the piece at `key`, "" past the end, and the last piece for -1.
   * Go panics for -1 on an empty slice and for any other negative key.
   */
  function CheckKey(strArr: seq<string>, key: int): (r: string)
    requires key >= 0 || (key == -1 && |strArr| > 0)
    ensures key >= |strArr| ==> r == ""
    ensures key == -1 ==> r == strArr[|strArr| - 1]
    ensures 0 <= key < |strArr| ==> r == strArr[key]
  {
    if key >= |strArr| then ""
    else if key == -1 then strArr[|strArr| - 1]
    else strArr[key]
  }

  /** Key 0 of a split at a non-empty phrase is the text before its first occurrence. */
  lemma CheckKeyFirstPiece(s: string, sep: string)
    requires |sep| > 0
    ensures Contains(s, sep) ==> CheckKey(Split(s, sep), 0) == s[..Index(s, sep)]
    ensures !Contains(s, sep) ==> CheckKey(Split(s, sep), 0) == s
  {
  }

  /**
   * Key -1 of a split at a non-empty phrase is the text after its last
   * occurrence: a suffix of `s` that does not contain the phrase, preceded by
   * the phrase whenever the phrase occurs at all.
   */
  lemma CheckKeyLastPiece(s: string, sep: string)
    requires |sep| > 0
    ensures var last := CheckKey(Split(s, sep), -1);
            !Contains(last, sep)
            && |last| <= |s| && s[|s| - |last|..] == last
            && (Contains(s, sep) ==> |last| + |sep| <= |s| && s[|s| - |last| - |sep|..|s| - |last|] == sep)
  {
    var ps := Split(s, sep);
    var n := |ps|;
    var last := ps[n - 1];
    SplitJoin(s, sep);
    SplitPiecesAvoidSeparator(s, sep);
    if n == 1 {
      assert ps == [last];
    } else {
      assert ps == ps[..n - 1] + [last];
      JoinSnoc(ps[..n - 1], last, sep);
      var front := Join(ps[..n - 1], sep);
      assert s == front + sep + last;
      assert s[|s| - |last|..] == last;
      assert s[|s| - |last| - |sep|..|s| - |last|] == sep;
    }
  }
}
