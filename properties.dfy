/**
 What `helm_repo_remove_flags` guarantees, stated about the specification
 function `Serialize` (which the method `HelmRepoRemoveFlags` is proved to compute):
 which fragments appear, where, with what text, and how they are joined.
 */
module HelmRepoRemoveFlagsProperties {
  import opened Wrappers
  import Strings
  import opened HelmRepoRemoveFlags

  /** Table entry `i` passes the presence rule in `opts`. */
  predicate Present(opts: Options, i: nat)
    requires i < |Table|
  {
    Contributes(Lookup(opts, Table[i].key))
  }

  /** The value table entry `i` contributes; meaningful when it is present. */
  function ValueAt(opts: Options, i: nat): string
    requires i < |Table| && Present(opts, i)
  {
    Lookup(opts, Table[i].key).value
  }

  /** The table entries before `i` that pass the presence rule. */
  function Below(opts: Options, i: nat): set<nat>
    requires i <= |Table|
  {
    set j: nat | j < i && Present(opts, j)
  }

  /** The position in the fragment list of entry `i`, if it is present. */
  function Rank(opts: Options, i: nat): nat
    requires i <= |Table|
  {
    |Below(opts, i)|
  }

  // ---------------------------------------------------------------------
  // Fragments: count, placement, completeness, order

  lemma BelowStep(opts: Options, n: nat)
    requires n < |Table|
    ensures Rank(opts, n + 1) == Rank(opts, n) + (if Present(opts, n) then 1 else 0)
  {
    if Present(opts, n) {
      assert Below(opts, n + 1) == Below(opts, n) + {n};
      assert n !in Below(opts, n);
    } else {
      assert Below(opts, n + 1) == Below(opts, n);
    }
  }

  /** After `n` appends the list holds one fragment per present entry below `n`. */
  lemma {:induction false} LengthUpTo(opts: Options, n: nat)
    requires n <= |Table|
    ensures |FragmentsUpTo(opts, n)| == Rank(opts, n)
  {
    if n == 0 {
      assert Below(opts, 0) == {};
    } else {
      LengthUpTo(opts, n - 1);
      BelowStep(opts, n - 1);
    }
  }

  /** A present entry's fragment sits at its rank, and later appends leave it there. */
  lemma {:induction false} PlacedUpTo(opts: Options, n: nat, i: nat)
    requires i < n <= |Table| && Present(opts, i)
    ensures Rank(opts, i) < |FragmentsUpTo(opts, n)|
    ensures FragmentsUpTo(opts, n)[Rank(opts, i)] == Render(Table[i].style, ValueAt(opts, i))
  {
    LengthUpTo(opts, n - 1);
    if i < n - 1 {
      PlacedUpTo(opts, n - 1, i);
    }
  }

  /** Every fragment after `n` appends comes from a present entry below `n`, at that entry's rank. */
  lemma {:induction false} SourceUpTo(opts: Options, n: nat, j: nat) returns (i: nat)
    requires n <= |Table| && j < |FragmentsUpTo(opts, n)|
    ensures i < n && Present(opts, i) && Rank(opts, i) == j
    ensures FragmentsUpTo(opts, n)[j] == Render(Table[i].style, ValueAt(opts, i))
  {
    LengthUpTo(opts, n - 1);
    if j < |FragmentsUpTo(opts, n - 1)| {
      i := SourceUpTo(opts, n - 1, j);
    } else {
      i := n - 1;
    }
  }

  /** The number of fragments is the number of recognized keys that pass the presence rule, at most eight. */
  lemma FragmentCount(opts: Options)
    ensures |Fragments(opts)| == |Below(opts, |Table|)| <= 8
  {
    LengthUpTo(opts, |Table|);
  }

  /** A present key's fragment is `Render` of its value, at its rank. */
  lemma FragmentOfPresentKey(opts: Options, i: nat)
    requires i < |Table| && Present(opts, i)
    ensures Rank(opts, i) < |Fragments(opts)|
    ensures Fragments(opts)[Rank(opts, i)] == Render(Table[i].style, ValueAt(opts, i))
  {
    PlacedUpTo(opts, |Table|, i);
  }

  /** Conversely, no fragment comes from anything but a present key. */
  lemma FragmentComesFromPresentKey(opts: Options, j: nat)
    requires j < |Fragments(opts)|
    ensures exists i: nat :: i < |Table| && Present(opts, i) && Rank(opts, i) == j &&
                             Fragments(opts)[j] == Render(Table[i].style, ValueAt(opts, i))
  {
    var i := SourceUpTo(opts, |Table|, j);
  }

  /** Rank grows strictly past each present entry. */
  lemma {:induction false} RankIncreases(opts: Options, i: nat, k: nat)
    requires i < k <= |Table| && Present(opts, i)
    ensures Rank(opts, i) < Rank(opts, k)
  {
    BelowStep(opts, k - 1);
    if i < k - 1 {
      RankIncreases(opts, i, k - 1);
    }
  }

  /** Fragments follow the table order, whatever the hash. */
  lemma FixedOrder(opts: Options, i: nat, k: nat)
    requires i < k < |Table| && Present(opts, i) && Present(opts, k)
    ensures Rank(opts, i) < Rank(opts, k) < |Fragments(opts)|
    ensures Fragments(opts)[Rank(opts, i)] == Render(Table[i].style, ValueAt(opts, i))
    ensures Fragments(opts)[Rank(opts, k)] == Render(Table[k].style, ValueAt(opts, k))
  {
    RankIncreases(opts, i, k);
    FragmentOfPresentKey(opts, i);
    FragmentOfPresentKey(opts, k);
  }

  lemma {:induction false} RankWhenAllPresent(opts: Options, i: nat)
    requires i <= |Table|
    requires forall k :: 0 <= k < |Table| ==> Present(opts, k)
    ensures Rank(opts, i) == i
  {
    if i > 0 {
      RankWhenAllPresent(opts, i - 1);
      BelowStep(opts, i - 1);
    }
  }

  /** All eight keys set: eight fragments, entry `i`'s at position `i`. */
  lemma AllKeysPresent(opts: Options)
    requires forall k :: 0 <= k < |Table| ==> Present(opts, k)
    ensures |Fragments(opts)| == 8
    ensures forall i :: 0 <= i < |Table| ==> Fragments(opts)[i] == Render(Table[i].style, ValueAt(opts, i))
  {
    RankWhenAllPresent(opts, |Table|);
    FragmentCount(opts);
    forall i | 0 <= i < |Table|
      ensures Fragments(opts)[i] == Render(Table[i].style, ValueAt(opts, i))
    {
      RankWhenAllPresent(opts, i);
      FragmentOfPresentKey(opts, i);
    }
  }

  /** Entries past `n` that are all absent add nothing to the first `n` entries' fragments. */
  lemma {:induction false} AbsentTail(opts: Options, n: nat, m: nat)
    requires n <= m <= |Table|
    requires forall i :: n <= i < m ==> !Present(opts, i)
    ensures FragmentsUpTo(opts, m) == FragmentsUpTo(opts, n)
  {
    if m > n {
      AbsentTail(opts, n, m - 1);
      assert !Present(opts, m - 1);
    }
  }

  /** A present entry appends its rendered fragment. */
  lemma PresentStep(opts: Options, n: nat, before: seq<string>)
    requires n < |Table| && Present(opts, n) && FragmentsUpTo(opts, n) == before
    ensures FragmentsUpTo(opts, n + 1) == before + [Render(Table[n].style, ValueAt(opts, n))]
  {
  }

  /** When every entry from `m` on is absent, the first `m` entries' fragments are all of them. */
  lemma AbsentFrom(opts: Options, m: nat, r: seq<string>)
    requires m <= |Table| && FragmentsUpTo(opts, m) == r
    requires forall j :: m <= j < |Table| ==> !Present(opts, j)
    ensures Fragments(opts) == r
  {
    AbsentTail(opts, m, |Table|);
  }

  /** When entry `i` is the first present one, the first `i + 1` entries give its fragment alone. */
  lemma FirstPresentAt(opts: Options, i: nat)
    requires i < |Table| && Present(opts, i)
    requires forall j :: 0 <= j < i ==> !Present(opts, j)
    ensures FragmentsUpTo(opts, i + 1) == [Render(Table[i].style, ValueAt(opts, i))]
  {
    AbsentTail(opts, 0, i);
    PresentStep(opts, i, []);
  }

  /** When entry `k` is the next present one after `i`, it appends its fragment to those of the first `i + 1`. */
  lemma NextPresentAt(opts: Options, i: nat, k: nat, before: seq<string>)
    requires i < k < |Table| && Present(opts, k) && FragmentsUpTo(opts, i + 1) == before
    requires forall j :: i < j < k ==> !Present(opts, j)
    ensures FragmentsUpTo(opts, k + 1) == before + [Render(Table[k].style, ValueAt(opts, k))]
  {
    AbsentTail(opts, i + 1, k);
    PresentStep(opts, k, before);
  }

  lemma PairConcat(a: string, b: string)
    ensures [a] + [b] == [a, b]
  {
  }

  /** When `i < k` are the only present entries up to `k`, the first `k + 1` entries give their two fragments. */
  lemma TwoPresentUpTo(opts: Options, i: nat, k: nat)
    requires i < k < |Table| && Present(opts, i) && Present(opts, k)
    requires forall j :: 0 <= j < k && j != i ==> !Present(opts, j)
    ensures FragmentsUpTo(opts, k + 1) == [Render(Table[i].style, ValueAt(opts, i)), Render(Table[k].style, ValueAt(opts, k))]
  {
    var a := Render(Table[i].style, ValueAt(opts, i));
    var b := Render(Table[k].style, ValueAt(opts, k));
    FirstPresentAt(opts, i);
    NextPresentAt(opts, i, k, [a]);
    PairConcat(a, b);
  }

  /** When only entry `i` is present, its fragment is the whole list. */
  lemma OnlyOnePresent(opts: Options, i: nat)
    requires i < |Table| && Present(opts, i)
    requires forall k :: 0 <= k < |Table| && k != i ==> !Present(opts, k)
    ensures Fragments(opts) == [Render(Table[i].style, ValueAt(opts, i))]
  {
    FirstPresentAt(opts, i);
    AbsentFrom(opts, i + 1, [Render(Table[i].style, ValueAt(opts, i))]);
  }

  /** When only entries `i < k` are present, the list is their two fragments in that order. */
  lemma OnlyTwoPresent(opts: Options, i: nat, k: nat)
    requires i < k < |Table| && Present(opts, i) && Present(opts, k)
    requires forall j :: 0 <= j < |Table| && j != i && j != k ==> !Present(opts, j)
    ensures Fragments(opts) == [Render(Table[i].style, ValueAt(opts, i)), Render(Table[k].style, ValueAt(opts, k))]
  {
    TwoPresentUpTo(opts, i, k);
    AbsentFrom(opts, k + 1, [Render(Table[i].style, ValueAt(opts, i)), Render(Table[k].style, ValueAt(opts, k))]);
  }

  // ---------------------------------------------------------------------
  // The presence rule: only the effective values of the eight keys matter

  lemma {:induction false} CongruentUpTo(o1: Options, o2: Options, n: nat)
    requires n <= |Table|
    requires forall i :: 0 <= i < |Table| ==> Effective(o1, Table[i].key) == Effective(o2, Table[i].key)
    ensures FragmentsUpTo(o1, n) == FragmentsUpTo(o2, n)
  {
    if n > 0 {
      CongruentUpTo(o1, o2, n - 1);
      assert Effective(o1, Table[n - 1].key) == Effective(o2, Table[n - 1].key);
    }
  }

  /** Two hashes that agree on the effective values of the eight keys give the same string. */
  lemma Congruent(o1: Options, o2: Options)
    requires forall i :: 0 <= i < |Table| ==> Effective(o1, Table[i].key) == Effective(o2, Table[i].key)
    ensures Serialize(Some(o1)) == Serialize(Some(o2))
  {
    CongruentUpTo(o1, o2, |Table|);
  }

  /** A key outside the eight is never read. */
  lemma UnrecognizedKeyIgnored(opts: Options, k: string, v: Option<string>)
    requires forall i :: 0 <= i < |Table| ==> Table[i].key != k
    ensures Serialize(Some(opts[k := v])) == Serialize(Some(opts))
    ensures Serialize(Some(opts - {k})) == Serialize(Some(opts))
  {
    Congruent(opts[k := v], opts);
    Congruent(opts - {k}, opts);
  }

  /** The hash cut down to the recognized keys gives the same string. */
  lemma OnlyRecognizedKeysMatter(opts: Options)
    ensures Serialize(Some(map k | k in opts && (exists i :: 0 <= i < |Table| && Table[i].key == k) :: opts[k]))
         == Serialize(Some(opts))
  {
    var r := map k | k in opts && (exists i :: 0 <= i < |Table| && Table[i].key == k) :: opts[k];
    forall i | 0 <= i < |Table| ensures Effective(r, Table[i].key) == Effective(opts, Table[i].key) {
      assert Lookup(r, Table[i].key) == Lookup(opts, Table[i].key);
    }
    Congruent(r, opts);
  }

  /** A missing key, a nil value and the string "undef" are all treated alike. */
  lemma UndefIsAbsent(opts: Options, k: string)
    ensures Serialize(Some(opts[k := Some(Undef)])) == Serialize(Some(opts - {k}))
    ensures Serialize(Some(opts[k := None])) == Serialize(Some(opts - {k}))
  {
    Congruent(opts[k := Some(Undef)], opts - {k});
    Congruent(opts[k := None], opts - {k});
  }

  /** An empty string is a present value: it gives an empty quoted fragment. */
  lemma EmptyValueIsPresent(opts: Options, i: nat)
    requires i < |Table| && Lookup(opts, Table[i].key) == Some("")
    ensures Present(opts, i)
    ensures Rank(opts, i) < |Fragments(opts)|
    ensures Fragments(opts)[Rank(opts, i)] == Render(Table[i].style, "")
  {
    FragmentOfPresentKey(opts, i);
  }

  // ---------------------------------------------------------------------
  // The joined string

  /** A missing argument and an empty hash both give the empty string. */
  lemma EmptyInput()
    ensures Serialize(None) == ""
    ensures Serialize(Some(map[])) == ""
  {
    FragmentCount(map[]);
    forall j: nat | j < 8 ensures j !in Below(map[], 8) { }
    assert Below(map[], 8) == {};
  }

  lemma FragmentsNonEmpty(opts: Options)
    ensures forall j :: 0 <= j < |Fragments(opts)| ==> Fragments(opts)[j] != ""
  {
  }

  /** The result is empty exactly when no recognized key passes the presence rule. */
  lemma EmptyIffNothingPresent(arg: Option<Options>)
    ensures Serialize(arg) == "" <==> forall i :: 0 <= i < |Table| ==> !Present(OptionsOf(arg), i)
  {
    var opts := OptionsOf(arg);
    FragmentsNonEmpty(opts);
    Strings.JoinEmptyIff(Fragments(opts), " ");
    if exists i :: 0 <= i < |Table| && Present(opts, i) {
      var i :| 0 <= i < |Table| && Present(opts, i);
      FragmentOfPresentKey(opts, i);
    }
    if Fragments(opts) != [] {
      FragmentComesFromPresentKey(opts, 0);
    }
  }

  /** One space between consecutive fragments and nothing else. */
  lemma SerializedLength(arg: Option<Options>)
    ensures var f := Fragments(OptionsOf(arg));
            |Serialize(arg)| == Strings.TotalLength(f) + (if |f| == 0 then 0 else |f| - 1)
  {
    Strings.JoinLength(Fragments(OptionsOf(arg)), " ");
  }

  /** Every fragment begins with a quote or a dash and ends with a quote. */
  lemma FragmentEdges(opts: Options, j: nat)
    requires j < |Fragments(opts)|
    ensures Fragments(opts)[j][0] in {'\'', '-'}
    ensures Fragments(opts)[j][|Fragments(opts)[j]| - 1] == '\''
  {
    var i := SourceUpTo(opts, |Table|, j);
    var f := Fragments(opts)[j];
    if Table[i].style.Named? {
      RenderStartsWithFlag(Table[i].style.flag, ValueAt(opts, i));
      assert f[0] == f[..|Table[i].style.flag|][0];
    }
  }

  /** A non-empty result has no leading or trailing space. */
  lemma NoEdgeSpaces(arg: Option<Options>)
    requires Serialize(arg) != ""
    ensures Serialize(arg)[0] != ' '
    ensures Serialize(arg)[|Serialize(arg)| - 1] == '\''
  {
    var f := Fragments(OptionsOf(arg));
    var s := Serialize(arg);
    assert |f| > 0;
    FragmentsNonEmpty(OptionsOf(arg));
    FragmentEdges(OptionsOf(arg), 0);
    FragmentEdges(OptionsOf(arg), |f| - 1);
    Strings.JoinStartsWithFirst(f, " ");
    Strings.JoinEndsWithLast(f, " ");
    assert s[0] == s[..|f[0]|][0];
    assert s[|s| - 1] == s[|s| - |f[|f| - 1]|..][|f[|f| - 1]| - 1];
  }

  /** When `repo_name` is present its quoted value opens the string. */
  lemma RepoNameFirst(arg: Option<Options>)
    requires Present(OptionsOf(arg), 0)
    ensures var q := Quote(ValueAt(OptionsOf(arg), 0));
            |q| <= |Serialize(arg)| && Serialize(arg)[..|q|] == q
  {
    var opts := OptionsOf(arg);
    assert Below(opts, 0) == {};
    FragmentOfPresentKey(opts, 0);
    Strings.JoinStartsWithFirst(Fragments(opts), " ");
  }

  // ---------------------------------------------------------------------
  // Fragment text: values are inserted verbatim

  /** The value is recovered from its fragment exactly: nothing is escaped. */
  lemma RenderRoundTrip(style: Style, v: string)
    ensures Unrender(style, Render(style, v)) == Some(v)
  {
  }

  /** A fragment that reads back as `v` is exactly the rendering of `v`. */
  lemma UnrenderSound(style: Style, frag: string, v: string)
    requires Unrender(style, frag) == Some(v)
    ensures Render(style, v) == frag
  {
    match style
    case Positional =>
      assert frag == [frag[0]] + frag[1..|frag| - 1] + [frag[|frag| - 1]];
    case Named(flag) =>
      var q := frag[|flag| + 1..];
      assert q == [q[0]] + q[1..|q| - 1] + [q[|q| - 1]];
      assert frag == frag[..|flag| + 1] + q;
  }

  /** Each present key's value reads back unchanged from its place in the output. */
  lemma ValueVerbatim(opts: Options, i: nat)
    requires i < |Table| && Present(opts, i)
    ensures Rank(opts, i) < |Fragments(opts)|
    ensures Unrender(Table[i].style, Fragments(opts)[Rank(opts, i)]) == Some(ValueAt(opts, i))
  {
    FragmentOfPresentKey(opts, i);
    RenderRoundTrip(Table[i].style, ValueAt(opts, i));
  }

  // ---------------------------------------------------------------------
  // Worked examples

  lemma ExampleRepoName(opts: Options)
    requires opts == map["repo_name" := Some("stable")]
    ensures Serialize(Some(opts)) == "'stable'"
  {
    assert Table[0].key == "repo_name";
    assert forall k :: 1 <= k < |Table| ==> Table[k].key !in opts;
    OnlyOnePresent(opts, 0);
    assert Quote("stable") == "'stable'";
  }

  lemma ExampleRepoNameAndHomePresence(opts: Options)
    requires opts == map["repo_name" := Some("stable"), "home" := Some("/root/.helm")]
    ensures Present(opts, 0) && ValueAt(opts, 0) == "stable"
    ensures Present(opts, 1) && ValueAt(opts, 1) == "/root/.helm"
    ensures forall k :: 2 <= k < |Table| ==> !Present(opts, k)
  {
    assert Table[0].key == "repo_name" && Table[1].key == "home";
    assert forall k :: 2 <= k < |Table| ==> Table[k].key !in opts;
  }

  lemma ExampleRepoNameAndHomeFragments(opts: Options)
    requires opts == map["repo_name" := Some("stable"), "home" := Some("/root/.helm")]
    ensures Fragments(opts) == ["'stable'", "--home '/root/.helm'"]
  {
    ExampleRepoNameAndHomePresence(opts);
    OnlyTwoPresent(opts, 0, 1);
    assert Quote("stable") == "'stable'";
    assert Render(Named("--home"), "/root/.helm") == "--home '/root/.helm'";
  }

  lemma ExampleRepoNameAndHome(opts: Options)
    requires opts == map["repo_name" := Some("stable"), "home" := Some("/root/.helm")]
    ensures Serialize(Some(opts)) == "'stable' --home '/root/.helm'"
  {
    ExampleRepoNameAndHomeFragments(opts);
    Strings.JoinPair("'stable'", "--home '/root/.helm'", " ");
  }

  lemma ExampleUndefHost(opts: Options)
    requires opts == map["host" := Some("undef"), "repo_cache" := Some("/cache")]
    ensures Serialize(Some(opts)) == "--repository-cache '/cache'"
  {
    assert Table[2].key == "host" && Table[6].key == "repo_cache";
    assert forall k :: 0 <= k < |Table| && k != 2 && k != 6 ==> Table[k].key !in opts;
    OnlyOnePresent(opts, 6);
    assert Render(Named("--repository-cache"), "/cache") == "--repository-cache '/cache'";
  }

  lemma ExampleUnknownKey(opts: Options)
    requires opts == map["foo" := Some("bar")]
    ensures Serialize(Some(opts)) == ""
  {
    assert forall k :: 0 <= k < |Table| ==> Table[k].key !in opts;
    AbsentTail(opts, 0, |Table|);
  }

  lemma ExampleQuoteNotEscaped(opts: Options)
    requires opts == map["repo_name" := Some("it's")]
    ensures Serialize(Some(opts)) == "'it's'"
  {
    assert Table[0].key == "repo_name";
    assert forall k :: 1 <= k < |Table| ==> Table[k].key !in opts;
    OnlyOnePresent(opts, 0);
    assert Quote("it's") == "'it's'";
  }
}
