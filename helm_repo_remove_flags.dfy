/**
 The Puppet parser function `helm_repo_remove_flags`: it turns an options hash
 into the argument string of `helm repo remove`.

 Eight keys are read, always in the same order. A key whose value is present
 and is not the string "undef" contributes one fragment: `repo_name` a bare
 single-quoted positional argument, every other key `--flag 'value'`. The
 fragments are joined with single spaces.
 */
module HelmRepoRemoveFlags {
  import opened Wrappers
  import Strings

  /** A Puppet hash with string keys; a value is `None` when it is nil. */
  type Options = map<string, Option<string>>

  /** How a recognized key is written on the command line. */
  datatype Style = Positional | Named(flag: string)

  /** A recognized option key and the way it is written. */
  datatype Entry = Entry(key: string, style: Style)

  /** The sentinel by which Puppet passes an unset value as a string. */
  const Undef: string := "undef"

  /** The eight recognized keys, in the order their fragments are emitted. */
  const Table: seq<Entry> := [
    Entry("repo_name", Positional),
    Entry("home", Named("--home")),
    Entry("host", Named("--host")),
    Entry("kube_context", Named("--kube-context")),
    Entry("tiller_namespace", Named("--tiller-namespace")),
    Entry("reg_config", Named("--registry-config")),
    Entry("repo_cache", Named("--repository-cache")),
    Entry("repo_config", Named("--repository-config"))
  ]

  /** Hash access `opts[key]`: nil for a missing key as for a nil value. */
  function Lookup(opts: Options, key: string): Option<string>
  {
    if key in opts then opts[key] else None
  }

  /** The guard `opts[key] && opts[key].to_s != 'undef'`. */
  predicate Contributes(v: Option<string>)
  {
    v.Some? && v.value != Undef
  }

  /** The value a key contributes, with nil, absence and "undef" all collapsed to `None`. */
  function Effective(opts: Options, key: string): (v: Option<string>)
    ensures v == None <==> key !in opts || opts[key] == None || opts[key] == Some(Undef)
    ensures v != None ==> key in opts && opts[key] == v
  {
    var w := Lookup(opts, key);
    if Contributes(w) then w else None
  }

  /** The argument `args[0] || {}`: a missing or nil argument is the empty hash. */
  function OptionsOf(arg: Option<Options>): Options
  {
    if arg.Some? then arg.value else map[]
  }

  /** The value wrapped in single quotes, with nothing escaped. */
  function Quote(v: string): string
  {
    "'" + v + "'"
  }

  /** The fragment for one contributing key. */
  function Render(style: Style, v: string): (r: string)
    ensures |r| >= 2 && r[|r| - 1] == '\''
    ensures style.Positional? ==> r[0] == '\''
  {
    match style
    case Positional => Quote(v)
    case Named(flag) => flag + " " + Quote(v)
  }

  /** A named fragment opens with its flag. */
  lemma RenderStartsWithFlag(flag: string, v: string)
    ensures |flag| < |Render(Named(flag), v)|
    ensures Render(Named(flag), v)[..|flag|] == flag
  {
  }

  /** A literal `"--flag '"` followed by a value and a quote is the rendering of a named key. */
  lemma NamedText(text: string, flag: string, v: string)
    requires text == flag + " '"
    ensures text + v + "'" == Render(Named(flag), v)
  {
  }

  /** The inverse of `Quote`: the text between an opening and a closing quote. */
  function Unquote(s: string): Option<string>
  {
    if |s| >= 2 && s[0] == '\'' && s[|s| - 1] == '\'' then Some(s[1..|s| - 1]) else None
  }

  /** The inverse of `Render`: the value a fragment of the given style carries. */
  function Unrender(style: Style, frag: string): Option<string>
  {
    match style
    case Positional => Unquote(frag)
    case Named(flag) =>
      if |flag| + 1 <= |frag| && frag[..|flag| + 1] == flag + " " then Unquote(frag[|flag| + 1..]) else None
  }

  /**
   The fragments appended for the first `n` table entries, in table order:
   the contents of `flags` after the first `n` conditional appends.
   */
  function FragmentsUpTo(opts: Options, n: nat): (r: seq<string>)
    requires n <= |Table|
    ensures |r| <= n
    ensures forall j :: 0 <= j < |r| ==> |r[j]| >= 2
  {
    if n == 0 then []
    else
      var e := Table[n - 1];
      var v := Lookup(opts, e.key);
      FragmentsUpTo(opts, n - 1) + (if Contributes(v) then [Render(e.style, v.value)] else [])
  }

  /** What one conditional append adds: the entry's fragment, or nothing when its value fails the presence rule. */
  function Piece(opts: Options, e: Entry): (r: seq<string>)
    ensures |r| <= 1
    ensures |r| == 1 <==> Contributes(Lookup(opts, e.key))
  {
    var v := Lookup(opts, e.key);
    if Contributes(v) then [Render(e.style, v.value)] else []
  }

  /** Unfolding one append of `FragmentsUpTo`, for table entry `n`. */
  lemma UpToStep(opts: Options, n: nat, e: Entry, before: seq<string>)
    requires n < |Table| && Table[n] == e && FragmentsUpTo(opts, n) == before
    ensures FragmentsUpTo(opts, n + 1) == before + Piece(opts, e)
  {
  }

  /** The pieces of the first four appends. */
  lemma FirstFourPieces(opts: Options)
    ensures FragmentsUpTo(opts, 4) ==
      Piece(opts, Entry("repo_name", Positional)) +
      Piece(opts, Entry("home", Named("--home"))) +
      Piece(opts, Entry("host", Named("--host"))) +
      Piece(opts, Entry("kube_context", Named("--kube-context")))
  {
    var p0 := Piece(opts, Entry("repo_name", Positional));
    var p1 := p0 + Piece(opts, Entry("home", Named("--home")));
    var p2 := p1 + Piece(opts, Entry("host", Named("--host")));
    UpToStep(opts, 0, Entry("repo_name", Positional), []);
    assert [] + p0 == p0;
    UpToStep(opts, 1, Entry("home", Named("--home")), p0);
    UpToStep(opts, 2, Entry("host", Named("--host")), p1);
    UpToStep(opts, 3, Entry("kube_context", Named("--kube-context")), p2);
  }

  /** The fragment list is the eight appends' pieces, one after the other. */
  lemma FragmentsByPieces(opts: Options)
    ensures Fragments(opts) ==
      Piece(opts, Entry("repo_name", Positional)) +
      Piece(opts, Entry("home", Named("--home"))) +
      Piece(opts, Entry("host", Named("--host"))) +
      Piece(opts, Entry("kube_context", Named("--kube-context"))) +
      Piece(opts, Entry("tiller_namespace", Named("--tiller-namespace"))) +
      Piece(opts, Entry("reg_config", Named("--registry-config"))) +
      Piece(opts, Entry("repo_cache", Named("--repository-cache"))) +
      Piece(opts, Entry("repo_config", Named("--repository-config")))
  {
    FirstFourPieces(opts);
    var p3 := FragmentsUpTo(opts, 4);
    var p4 := p3 + Piece(opts, Entry("tiller_namespace", Named("--tiller-namespace")));
    var p5 := p4 + Piece(opts, Entry("reg_config", Named("--registry-config")));
    var p6 := p5 + Piece(opts, Entry("repo_cache", Named("--repository-cache")));
    UpToStep(opts, 4, Entry("tiller_namespace", Named("--tiller-namespace")), p3);
    UpToStep(opts, 5, Entry("reg_config", Named("--registry-config")), p4);
    UpToStep(opts, 6, Entry("repo_cache", Named("--repository-cache")), p5);
    UpToStep(opts, 7, Entry("repo_config", Named("--repository-config")), p6);
  }

  /** All fragments of an options hash. */
  function Fragments(opts: Options): seq<string>
  {
    FragmentsUpTo(opts, |Table|)
  }

  /** What `helm_repo_remove_flags(arg)` returns. */
  function Serialize(arg: Option<Options>): string
  {
    Strings.Join(Fragments(OptionsOf(arg)), " ")
  }

  /**
   The function body: `flags` starts empty, each recognized key whose value
   passes the presence rule appends its fragment, and the list is joined.
   */
  method HelmRepoRemoveFlags(arg: Option<Options>) returns (s: string)
    ensures s == Serialize(arg)
  {
    var opts := if arg.Some? then arg.value else map[];
    var flags: seq<string> := [];
    var v := Lookup(opts, "repo_name");
    flags := flags + if v.Some? && v.value != "undef" then ["'" + v.value + "'"] else [];
    ghost var f0 := flags;
    assert f0 == Piece(opts, Entry("repo_name", Positional));
    v := Lookup(opts, "home");
    flags := flags + if v.Some? && v.value != "undef" then ["--home '" + v.value + "'"] else [];
    ghost var f1 := flags;
    assert f1 == f0 + Piece(opts, Entry("home", Named("--home"))) by {
      if v.Some? { NamedText("--home '", "--home", v.value); }
    }
    v := Lookup(opts, "host");
    flags := flags + if v.Some? && v.value != "undef" then ["--host '" + v.value + "'"] else [];
    ghost var f2 := flags;
    assert f2 == f1 + Piece(opts, Entry("host", Named("--host"))) by {
      if v.Some? { NamedText("--host '", "--host", v.value); }
    }
    v := Lookup(opts, "kube_context");
    flags := flags + if v.Some? && v.value != "undef" then ["--kube-context '" + v.value + "'"] else [];
    ghost var f3 := flags;
    assert f3 == f2 + Piece(opts, Entry("kube_context", Named("--kube-context"))) by {
      if v.Some? { NamedText("--kube-context '", "--kube-context", v.value); }
    }
    v := Lookup(opts, "tiller_namespace");
    flags := flags + if v.Some? && v.value != "undef" then ["--tiller-namespace '" + v.value + "'"] else [];
    ghost var f4 := flags;
    assert f4 == f3 + Piece(opts, Entry("tiller_namespace", Named("--tiller-namespace"))) by {
      if v.Some? { NamedText("--tiller-namespace '", "--tiller-namespace", v.value); }
    }
    v := Lookup(opts, "reg_config");
    flags := flags + if v.Some? && v.value != "undef" then ["--registry-config '" + v.value + "'"] else [];
    ghost var f5 := flags;
    assert f5 == f4 + Piece(opts, Entry("reg_config", Named("--registry-config"))) by {
      if v.Some? { NamedText("--registry-config '", "--registry-config", v.value); }
    }
    v := Lookup(opts, "repo_cache");
    flags := flags + if v.Some? && v.value != "undef" then ["--repository-cache '" + v.value + "'"] else [];
    ghost var f6 := flags;
    assert f6 == f5 + Piece(opts, Entry("repo_cache", Named("--repository-cache"))) by {
      if v.Some? { NamedText("--repository-cache '", "--repository-cache", v.value); }
    }
    v := Lookup(opts, "repo_config");
    flags := flags + if v.Some? && v.value != "undef" then ["--repository-config '" + v.value + "'"] else [];
    assert flags == f6 + Piece(opts, Entry("repo_config", Named("--repository-config"))) by {
      if v.Some? { NamedText("--repository-config '", "--repository-config", v.value); }
    }
    FragmentsByPieces(opts);
    s := Strings.Join(flags, " ");
  }
}
