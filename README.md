# helm_repo_remove_flags, modelled in Dafny

The Puppet module for Helm builds the command line of `helm repo remove` with
the parser function `helm_repo_remove_flags`. It takes an options hash and
returns one string. Eight keys are read, always in this order: `repo_name`,
`home`, `host`, `kube_context`, `tiller_namespace`, `reg_config`,
`repo_cache`, `repo_config`. A key contributes a fragment when its value is
present (not nil) and is not the string `"undef"`. `repo_name` becomes a bare
quoted positional argument `'value'`. Every other key becomes
`--flag 'value'`; the flags are `--home`, `--host`, `--kube-context`,
`--tiller-namespace`, `--registry-config`, `--repository-cache` and
`--repository-config`. The fragments are joined with single spaces. Values
are not escaped.

Files:

- `wrappers.dfy`: `Option`, used for Ruby's `nil`.
- `strings.dfy`: `Strings.Join`, Ruby's `Array#join`, with lemmas about it.
- `helm_repo_remove_flags.dfy`: the options hash, the fixed key table, the presence
  rule, the fragment text, the specification function `Serialize`, and the
  method `HelmRepoRemoveFlags`. The method follows the function body: an empty
  `flags` list, eight conditional appends, then a join. It is proved to return
  `Serialize(arg)`.
- `properties.dfy`: what `Serialize` guarantees. This covers the fragment count,
  where each fragment goes, that no other fragments appear, the fixed order, the
  presence rule, ignored keys, the joined string, and verbatim values.

Representation: the argument `args[0]` is an `Option<Options>`, where `None` is
a missing or nil argument (`args[0] || {}`). `Options` is a
`map<string, Option<string>>`, where a value of `None` is a nil value. A missing key and a nil value
read the same (`Lookup`). Dafny maps have no insertion order, so the input's
key order cannot affect the result. `Rank(opts, i)` is the number of present
entries before table entry `i`, defined as the size of a set of indices. It
gives an independent description of where each fragment lands.

## Model

| member | source | states |
|---|---|---|
| HelmRepoRemoveFlags.HelmRepoRemoveFlags | lib/puppet/parser/functions/helm_repo_remove_flags.rb:10-20 | the function body (empty hash for a missing argument, eight conditional appends in table order, join with one space) returns exactly `Serialize(arg)` |
| HelmRepoRemoveFlags.Serialize | lib/puppet/parser/functions/helm_repo_remove_flags.rb:10-20 | the definition of the returned string: the fragments of `args[0] || {}` joined with one space. The method proves it is the function body; EmptyInput, EmptyIffNothingPresent, SerializedLength, NoEdgeSpaces and RepoNameFirst state its properties |
| HelmRepoRemoveFlags.OptionsOf | lib/puppet/parser/functions/helm_repo_remove_flags.rb:10 | the definition of `args[0] || {}`: a missing or nil argument is the empty hash. EmptyInput states the consequence |
| HelmRepoRemoveFlags.Lookup | lib/puppet/parser/functions/helm_repo_remove_flags.rb:12-19 | the definition of `opts[key]`: a missing key reads as nil, like a nil value. Effective, UndefIsAbsent and UnrecognizedKeyIgnored state the consequences |
| HelmRepoRemoveFlags.Contributes | lib/puppet/parser/functions/helm_repo_remove_flags.rb:12-19 | the definition of the guard `opts[k] && opts[k].to_s != 'undef'` on a looked-up value. Effective states it on the raw hash; FragmentCount and FragmentComesFromPresentKey state that it decides every append |
| HelmRepoRemoveFlags.Effective | lib/puppet/parser/functions/helm_repo_remove_flags.rb:12-19 | the presence rule on the raw hash: a key yields nothing exactly when it is missing, nil or `"undef"`, and otherwise yields its hash value |
| HelmRepoRemoveFlags.Quote | lib/puppet/parser/functions/helm_repo_remove_flags.rb:12-19 | the definition of `'#{value}'`: the value between two single quotes, not escaped. RenderRoundTrip and ExampleQuoteNotEscaped state that nothing is escaped |
| HelmRepoRemoveFlags.Render | lib/puppet/parser/functions/helm_repo_remove_flags.rb:12-19 | a fragment is at least two characters and ends with a quote; a positional fragment starts with a quote |
| HelmRepoRemoveFlags.RenderStartsWithFlag | lib/puppet/parser/functions/helm_repo_remove_flags.rb:13-19 | a named fragment opens with its flag |
| HelmRepoRemoveFlags.NamedText | lib/puppet/parser/functions/helm_repo_remove_flags.rb:13-19 | the literal `"--flag '" + value + "'"` is the rendering of a named key with that flag |
| HelmRepoRemoveFlags.Piece | lib/puppet/parser/functions/helm_repo_remove_flags.rb:12-19 | one conditional append adds at most one fragment, and exactly one when the key's value passes the presence rule |
| HelmRepoRemoveFlags.FragmentsUpTo | lib/puppet/parser/functions/helm_repo_remove_flags.rb:11-19 | after the first `n` conditional appends, the list has at most `n` fragments, each at least two characters long |
| HelmRepoRemoveFlags.UpToStep | lib/puppet/parser/functions/helm_repo_remove_flags.rb:11-19 | the list after append `n + 1` is the list after append `n` followed by what table entry `n` adds |
| HelmRepoRemoveFlags.FirstFourPieces | lib/puppet/parser/functions/helm_repo_remove_flags.rb:11-15 | after the first four appends the list is what `repo_name`, `home`, `host` and `kube_context` add, in that order |
| HelmRepoRemoveFlags.FragmentsByPieces | lib/puppet/parser/functions/helm_repo_remove_flags.rb:11-19 | the final list is what the eight appends add, one after the other, in source order |
| HelmRepoRemoveFlags.Fragments | lib/puppet/parser/functions/helm_repo_remove_flags.rb:11-19 | the definition of `flags` after all eight appends. FragmentCount, FragmentOfPresentKey, FragmentComesFromPresentKey and FixedOrder state its contents |
| Strings.Join | lib/puppet/parser/functions/helm_repo_remove_flags.rb:20 | the definition of `Array#join` on strings: `""` for no parts and the part itself for one part. JoinLength, JoinConcat, JoinPair, JoinStartsWithFirst, JoinEndsWithLast and JoinEmptyIff state its properties |
| Strings.JoinLength | lib/puppet/parser/functions/helm_repo_remove_flags.rb:20 | the joined length is the parts' total length plus one separator between each pair of consecutive parts |
| Strings.JoinConcat | lib/puppet/parser/functions/helm_repo_remove_flags.rb:20 | joining `a + b` is joining `a`, then one separator, then joining `b` |
| Strings.JoinPair | lib/puppet/parser/functions/helm_repo_remove_flags.rb:20 | two parts are joined as the first, one separator, then the second |
| Strings.JoinStartsWithFirst | lib/puppet/parser/functions/helm_repo_remove_flags.rb:20 | the first part is a prefix of the joined string |
| Strings.JoinEndsWithLast | lib/puppet/parser/functions/helm_repo_remove_flags.rb:20 | the last part is a suffix of the joined string |
| Strings.JoinEmptyIff | lib/puppet/parser/functions/helm_repo_remove_flags.rb:20 | with no empty parts, the joined string is empty if and only if there are no parts |
| HelmRepoRemoveFlagsProperties.LengthUpTo | lib/puppet/parser/functions/helm_repo_remove_flags.rb:11-19 | after `n` appends the list holds exactly one fragment per present entry among the first `n` |
| HelmRepoRemoveFlagsProperties.PlacedUpTo | lib/puppet/parser/functions/helm_repo_remove_flags.rb:11-19 | a present entry's fragment is at its rank after every later append |
| HelmRepoRemoveFlagsProperties.SourceUpTo | lib/puppet/parser/functions/helm_repo_remove_flags.rb:11-19 | every fragment in the list comes from a present entry at that entry's rank |
| HelmRepoRemoveFlagsProperties.AbsentTail | lib/puppet/parser/functions/helm_repo_remove_flags.rb:12-19 | appends for entries that fail the presence rule leave the list unchanged |
| HelmRepoRemoveFlagsProperties.FragmentCount | lib/puppet/parser/functions/helm_repo_remove_flags.rb:12-19 | the number of fragments equals the number of recognized keys that pass the presence rule, at most 8 |
| HelmRepoRemoveFlagsProperties.FragmentOfPresentKey | lib/puppet/parser/functions/helm_repo_remove_flags.rb:12-19 | a present key contributes `Render(style, value)` at its rank |
| HelmRepoRemoveFlagsProperties.FragmentComesFromPresentKey | lib/puppet/parser/functions/helm_repo_remove_flags.rb:12-19 | every fragment is the rendering of some present key at that key's rank, so absent and `"undef"` keys contribute nothing |
| HelmRepoRemoveFlagsProperties.RankIncreases | lib/puppet/parser/functions/helm_repo_remove_flags.rb:12-19 | the rank strictly increases past each present entry |
| HelmRepoRemoveFlagsProperties.FixedOrder | lib/puppet/parser/functions/helm_repo_remove_flags.rb:12-19 | for two present keys, the one earlier in the table has the earlier fragment, whatever the hash |
| HelmRepoRemoveFlagsProperties.AllKeysPresent | lib/puppet/parser/functions/helm_repo_remove_flags.rb:12-19 | with all eight keys set there are exactly eight fragments, entry `i`'s at position `i` |
| HelmRepoRemoveFlagsProperties.PresentStep | lib/puppet/parser/functions/helm_repo_remove_flags.rb:12-19 | an append for a present entry adds exactly its rendered fragment |
| HelmRepoRemoveFlagsProperties.AbsentFrom | lib/puppet/parser/functions/helm_repo_remove_flags.rb:12-19 | when every entry from `m` on fails the presence rule, the final list is the list after `m` appends |
| HelmRepoRemoveFlagsProperties.FirstPresentAt | lib/puppet/parser/functions/helm_repo_remove_flags.rb:12-19 | when entry `i` is the first present one, the first `i + 1` appends give its fragment alone |
| HelmRepoRemoveFlagsProperties.NextPresentAt | lib/puppet/parser/functions/helm_repo_remove_flags.rb:12-19 | when `k` is the next present entry after `i`, append `k` adds its fragment after those of the first `i + 1` appends |
| HelmRepoRemoveFlagsProperties.TwoPresentUpTo | lib/puppet/parser/functions/helm_repo_remove_flags.rb:12-19 | when `i < k` are the only present entries up to `k`, the first `k + 1` appends give their two fragments in table order |
| HelmRepoRemoveFlagsProperties.OnlyOnePresent | lib/puppet/parser/functions/helm_repo_remove_flags.rb:12-19 | when exactly one key is present, the list is that key's fragment alone |
| HelmRepoRemoveFlagsProperties.OnlyTwoPresent | lib/puppet/parser/functions/helm_repo_remove_flags.rb:12-19 | when exactly two keys are present, the list is their two fragments in table order |
| HelmRepoRemoveFlagsProperties.Congruent | lib/puppet/parser/functions/helm_repo_remove_flags.rb:12-19 | two hashes that agree on the effective values of the eight keys give the same string |
| HelmRepoRemoveFlagsProperties.UnrecognizedKeyIgnored | lib/puppet/parser/functions/helm_repo_remove_flags.rb:12-19 | adding, changing or removing a key outside the eight does not change the string |
| HelmRepoRemoveFlagsProperties.OnlyRecognizedKeysMatter | lib/puppet/parser/functions/helm_repo_remove_flags.rb:12-19 | the hash restricted to the eight keys gives the same string |
| HelmRepoRemoveFlagsProperties.UndefIsAbsent | lib/puppet/parser/functions/helm_repo_remove_flags.rb:12-19 | setting a key to `"undef"` or to nil gives the same string as removing it |
| HelmRepoRemoveFlagsProperties.EmptyValueIsPresent | lib/puppet/parser/functions/helm_repo_remove_flags.rb:12-19 | an empty-string value is present and yields a fragment with empty quotes |
| HelmRepoRemoveFlagsProperties.EmptyInput | lib/puppet/parser/functions/helm_repo_remove_flags.rb:10-20 | a missing argument and an empty hash both give `""` |
| HelmRepoRemoveFlagsProperties.EmptyIffNothingPresent | lib/puppet/parser/functions/helm_repo_remove_flags.rb:12-20 | the string is empty if and only if no recognized key passes the presence rule |
| HelmRepoRemoveFlagsProperties.SerializedLength | lib/puppet/parser/functions/helm_repo_remove_flags.rb:20 | the length is the fragments' total length plus one space between each pair of consecutive fragments |
| HelmRepoRemoveFlagsProperties.FragmentEdges | lib/puppet/parser/functions/helm_repo_remove_flags.rb:12-19 | every fragment begins with a quote or a dash and ends with a quote |
| HelmRepoRemoveFlagsProperties.NoEdgeSpaces | lib/puppet/parser/functions/helm_repo_remove_flags.rb:20 | a non-empty result has no leading space and ends with a quote |
| HelmRepoRemoveFlagsProperties.RepoNameFirst | lib/puppet/parser/functions/helm_repo_remove_flags.rb:12 | a present `repo_name` appears as its quoted value, with no flag, at the very start of the string |
| HelmRepoRemoveFlagsProperties.RenderRoundTrip | lib/puppet/parser/functions/helm_repo_remove_flags.rb:12-19 | the value is read back from its fragment exactly, so nothing is escaped |
| HelmRepoRemoveFlagsProperties.UnrenderSound | lib/puppet/parser/functions/helm_repo_remove_flags.rb:12-19 | a fragment that reads back as `v` is exactly the rendering of `v` |
| HelmRepoRemoveFlagsProperties.ValueVerbatim | lib/puppet/parser/functions/helm_repo_remove_flags.rb:12-19 | each present key's value reads back unchanged from its place in the output |
| HelmRepoRemoveFlagsProperties.ExampleRepoName | lib/puppet/parser/functions/helm_repo_remove_flags.rb:12 | `{repo_name: stable}` gives `'stable'` |
| HelmRepoRemoveFlagsProperties.ExampleRepoNameAndHomePresence | lib/puppet/parser/functions/helm_repo_remove_flags.rb:12-19 | in `{repo_name: stable, home: /root/.helm}` exactly the first two keys pass the presence rule, with those values |
| HelmRepoRemoveFlagsProperties.ExampleRepoNameAndHomeFragments | lib/puppet/parser/functions/helm_repo_remove_flags.rb:12-19 | that hash gives the two fragments `'stable'` and `--home '/root/.helm'` |
| HelmRepoRemoveFlagsProperties.ExampleRepoNameAndHome | lib/puppet/parser/functions/helm_repo_remove_flags.rb:12-13 | `{repo_name: stable, home: /root/.helm}` gives `'stable' --home '/root/.helm'` |
| HelmRepoRemoveFlagsProperties.ExampleUndefHost | lib/puppet/parser/functions/helm_repo_remove_flags.rb:14-18 | `{host: undef, repo_cache: /cache}` gives `--repository-cache '/cache'` |
| HelmRepoRemoveFlagsProperties.ExampleUnknownKey | lib/puppet/parser/functions/helm_repo_remove_flags.rb:12-20 | `{foo: bar}` gives the empty string |
| HelmRepoRemoveFlagsProperties.ExampleQuoteNotEscaped | lib/puppet/parser/functions/helm_repo_remove_flags.rb:12 | `{repo_name: it's}` gives `'it's'`: the embedded quote is not escaped |

## Left out

- The Puppet registration (`newfunction`, `:type => :rvalue`) and the `args` array (lines 9-10). Only the function of its first argument is modelled.
- Non-string values and Ruby's `to_s` coercion. Values are strings or nil. So a value of `false`, which Ruby treats as falsy and omits, is not modelled.
- `flags.flatten` (line 20). The list holds only strings, so it has no effect.
- `require 'shellwords'` (line 3). Nothing uses it, and running the resulting shell command is outside the function.
- Values are Unicode strings (`seq<char>`). Ruby string encodings, invalid UTF-8 and the `Encoding::CompatibilityError` that `join(' ')` (line 20) raises on incompatible encodings are not modelled.
- Determinism and lack of side effects are not stated as lemmas. They hold because every member is a function, or a method that modifies nothing.
