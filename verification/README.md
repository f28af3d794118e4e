# Verified models of greentic-deployer

The deployer turns an environment, a deployment pack and a configuration into files that Terraform or
another tool runs. Most of it moves data around. This project models, in Dafny, the places where it
decides something, and proves what those decisions guarantee over all inputs and over whole runs.

| file | what it models |
|---|---|
| `Wrappers.dfy`, `Text.dfy`, `Json.dfy` | optional values and results, trimming, splitting into lines (carriage returns included), joining, JSON string literals |
| `Tfvars.dfy` | the scalar editor and the reader of tfvars texts, line by line |
| `TfvarsScalar.dfy` | laws of one scalar edit and of any run of scalar edits |
| `TfvarsMap.dfy`, `TfvarsMapLaws.dfy` | the two map editors and the map printer, and their laws |
| `TfvarsShapes.dfy` | which lines the editors and the reader take for what, and which an edit replaces, in characters |
| `TfvarsMapReader.dfy` | a reader of maps, and what it finds after the map editors and later edits |
| `TfvarsReach.dfy` | how far the reader gets in a text into which maps are written, and which edits commute |
| `TfvarsEditor.dfy` | the editors as they run: loops with flags over a text that is changed in place |
| `Normalizer.dfy` | deployment name prefixes and output scope keys |
| `Identity.dfy` | FNV-1a, seeds, generated prefixes |
| `Materialize.dfy` | the run of edits that writes the generated tfvars file, and the prefix it picks |
| `Reading.dfy`, `PublicUrl.dfy` | what can be read back from the written file, for every key; the public base URL |
| `Layers.dfy`, `Fields.dfy`, `Sticky.dfy` | layered override, the value of each field and the two maps in the written file, the prefix over whole runs |
| `Counterexamples.dfy` | one document for each property of the tfvars code that fails |
| `Paths.dfy`, `PackRef.dfy` | a file system with links, the containment checks, pack refs, the stale scan |
| `Contract.dfy`, `Dispatch.dfy` | the deployer contract, and which pack and flow a deployment uses |
| `LocalRun.dfy` | local terraform runs and the readiness loop as traces |
| `Handoff.dfy` | what is materialised for a target and what the status command later finds |
| `DeployDirs.dfy` | the search for the newest deploy directory |
| `SubtreeCopy.dfy`, `Sorting.dfy` | copying a pack subtree from a directory, a tar or a zip file |

Code that changes something step by step is a method or a class whose methods are proved against a
function of the inputs or of the old state; the properties are then proved about that function.
Environment variables, clocks, processes, network answers and what is on disk are parameters, so every
statement holds for all of them. Texts are sequences of Unicode characters.

## What was found on the way

Some properties one would expect hold only under a condition. The condition is proved to be exact, and
`Counterexamples.dfy` has a document for each that fails on texts.

- An edit repeated on a text with `\r\r\n` line ends drops one more carriage return each time. Last
  write wins exactly when no kept line ends in a carriage return (`TfvarsScalar.LastWriteWins`,
  `TfvarsMap.MapLastWriteWins`; `Counterexamples.RepeatedEditChangesText`).
- The reader gives up at the first live line without `=`, such as the closing brace of a map. The prefix
  can be reached if and only if nothing in the example ends the search above it, no runtime secret map with
  entries is written above it, and no operator secrets are (`Reading.PrefixSeen`). When the search is
  stopped, every run generates its own (`Sticky.HiddenPrefixIsLost`; `Counterexamples.PrefixBelowLabels`).
  The example of the repository's own test at src/apply.rs:5948-5953 has `runtime_secret_env = {}` and no prefix: the prefix is
  kept as long as the resolved map is empty, and lost as soon as it is not (`Counterexamples.AwsPrefix`).
- In the same way an override of a key that the example lacks is appended below the runtime secret map and
  cannot be read if that map has entries (`Reading.AbsentSeen`, `Reading.OverrideSeen`). This includes
  `dns_name`, from which the public base URL would be derived (`Counterexamples.AwsHostName`).
- A prefix that is reached is kept if and only if it needs no escape and is neither blank nor the legacy one
  (`Sticky.KeptExactly`). The editor escapes and the reader does not take escapes back, so a prefix that
  someone wrote into the file with a backslash in it grows with every run (`Sticky.EscapedPrefixGrows`,
  `Counterexamples.BackslashGrows`).
- The editors want exactly one space before `=`. A padded line of an example, as in
  fixtures/packs/tenant-manager-azure/terraform/staging.tfvars.example, is not replaced, and the key is then
  assigned twice (`TfvarsScalar.AssignedOnce`, `Counterexamples.PaddedLineStays`).
- The written file may still hold a placeholder URL: one made of a host name such as `x.example.com`, or
  one that stands where edits of the URL do not reach (`PublicUrl.PlaceholderLeft`;
  `Counterexamples.AwsPlaceholder`).
- A prefix given by `GREENTIC_DEPLOY_TERRAFORM_VAR_DEPLOYMENT_NAME_PREFIX` is normalised, but the same
  variable is also an override and is written raw, last (`Layers.ExplicitPrefixWrittenRaw`,
  `Counterexamples.RawPrefix`).
- The comment on `replace_tfvars_assignment_literal` calls it the same as the scalar editor but for
  quoting. It also wants a space after `=`, adds a blank line to an unterminated text and drops a blank
  last line; `TfvarsMapLaws.MapEditorsAgree` says exactly when that shows, and
  `Counterexamples.MapEditorsDiffer` gives a text.
- A readiness check with zero allowed attempts always fails (`LocalRun.ReadinessSucceeds`).
- When the pack has a contract, neither its planner flow nor the fallback to its first flow ever decides a full
  resolution: an undeclared capability fails later (`Dispatch.ProviderPackResolved`, `Dispatch.UndeclaredAlwaysFails`).
- Of several equally new deploy directories the one found may depend on a root that another root covers, but
  how new it is does not (`DeployDirs.CoveredRootKeepsTime`, `DeployDirs.DeeperRootWinsTie`).

## Model

| member | source | states |
|---|---|---|
| `Json.EscapeLength` | src/apply.rs:3036-3039 | quoting leaves a value alone exactly when nothing in it needs an escape, and lengthens it otherwise |
| `Json.ReadQuoted` | src/apply.rs:2776-2777 | a reader of JSON strings gets back any quoted text, whatever follows the literal |
| `Tfvars.MatchingLineBinds` | src/apply.rs:3043-3047 | a line the editors take for `k =` is an assignment to exactly k for the reader, whatever the indentation |
| `Tfvars.MatchesOneKey` | src/apply.rs:3043-3047 | no line is an assignment to two different keys |
| `Tfvars.ReadBackValue` | src/apply.rs:3117-3123 | the reader undoes the quoting of a value if and only if it has no quote, backslash, `#` or control character |
| `TfvarsScalar.ScanSetLineSame` | src/apply.rs:3107-3126 | a search for the key just written ends at its new line if it gets there, and otherwise where it ended before |
| `TfvarsScalar.AboveSetLine` | src/apply.rs:3035-3057 | no edit changes how far the search for any key gets: none reveals a key the reader could not reach, or hides one it could |
| `TfvarsScalar.ReadFrame` | src/apply.rs:3035-3126 | writing k leaves what is read for every other key, on every text |
| `TfvarsScalar.ReadWritten` | src/apply.rs:3035-3126 | exactly what is read for k after writing it: the value as quoted and cut if the reader gets there, else what was read before |
| `TfvarsScalar.ReadBack` | src/apply.rs:3035-3126 | when write then read returns the value: if and only if it is visible and plain, or hidden and already there |
| `TfvarsScalar.CanonLineReplace` | src/apply.rs:3035-3057 | after a write the first `k =` line is the rendering of the value; every other key keeps its first line |
| `TfvarsScalar.LastWriteWins` | src/apply.rs:3035-3057 | two writes leave the text of the second (so writing twice is writing once) exactly when no kept line ends in a carriage return |
| `TfvarsScalar.RunRead` | src/apply.rs:2659-2714 | what any run of scalar edits makes readable: the last value written for a visible key, and nothing else changed |
| `TfvarsScalar.RunCount` | src/apply.rs:2659-2714 | no accumulation of lines the editors recognise: max(1, initial) for each key a run sets and the initial number for the others |
| `TfvarsScalar.RunBinds` | src/apply.rs:2659-2714 | lines that the reader takes for the key, in any spelling: a run adds one exactly for a key it sets that has no line in the editors' spelling |
| `TfvarsScalar.AssignedOnce` | src/apply.rs:3043-3053 | exactly when a key is assigned at most once after a run |
| `TfvarsScalar.RunCanonLine` | src/apply.rs:2659-2714 | after a run the first line of each key is the rendering of its last value, or its first line from before |
| `TfvarsScalar.BindingsAreReads` | src/apply.rs:3107-3126 | the map of bindings of a text is exactly what the reader can return |
| `TfvarsScalar.RunRefinesUpdate` | src/apply.rs:2659-2714 | refinement: with visible keys and plain values a run of text edits is the same run of map updates |
| `TfvarsMap.SetBlockOverBlock` | src/apply.rs:3079-3099 | rewriting a map that was written before removes all its lines and nothing else |
| `TfvarsMap.MapLastWriteWins` | src/apply.rs:3059-3105 | writing two maps leaves exactly the text of the second, if and only if no kept line ends in a carriage return |
| `TfvarsMapLaws.MapEditorsAgree` | src/apply.rs:2773-2819 | the literal editor fed by the map printer and the flag-based editor write the same text, exactly when the tail of the text is in order |
| `TfvarsMapLaws.CanonLineReplaceMap` | src/apply.rs:3059-3105 | a map edit keeps the first line of every other key, if the map it replaces is closed and quoted |
| `TfvarsMapLaws.CanonLineReplaceLiteral` | src/apply.rs:2786-2819 | the same for the literal editor with its own test for opening and closing lines |
| `TfvarsMapLaws.RunKeepsBlock` | src/apply.rs:3035-3057 | a closed map of quoted entries stays line for line where it is under any run of scalar edits of other keys |
| `TfvarsShapes.LinesOfText` | src/apply.rs:3043 | the lines of every text, carriage returns and an unterminated rest included |
| `TfvarsShapes.MatchesExact` | src/apply.rs:3044-3045 | the scalar and the map editor take exactly the lines with the key, one space and `=` after any white space |
| `TfvarsShapes.LitMatchesExact` | src/apply.rs:2792 | the literal editor wants one more space |
| `TfvarsShapes.OpensExact` | src/apply.rs:3093 | a map goes on below a header that ends in `{` and has no `}` |
| `TfvarsShapes.CloseExact` | src/apply.rs:3082-3086 | and ends at a line with nothing but `}` after white space |
| `TfvarsShapes.LitOpensExact` | src/apply.rs:2796 | the literal editor also takes `[`, and white space at the end |
| `TfvarsShapes.LitCloseExact` | src/apply.rs:2797-2801 | and `]`, with white space on both sides |
| `TfvarsShapes.ReplacedMap` | src/apply.rs:3079-3104 | for every text, which lines the flag-based editor replaces: down to the first closing line, or to the end, whatever stands between; everything else is kept |
| `TfvarsShapes.ReplacedLiteral` | src/apply.rs:2786-2819 | the same for the literal editor, with its blank-line rules |
| `TfvarsShapes.WrittenByHand` | src/apply.rs:3108-3123 | a line written by hand, padded, quoted or bare, with or without a comment, is read as its key and its value |
| `TfvarsShapes.OtherLines` | src/apply.rs:3109-3113 | blank lines and both kinds of comments are passed over; any other line without `=` ends the search |
| `TfvarsMapReader.EntryRoundTrip` | src/apply.rs:3068-3073 | a printed map entry is read back as the same key and the same value, whatever characters they hold |
| `TfvarsMapReader.MapRoundTrip` | src/apply.rs:3059-3105 | what the flag-based editor writes into any text is read back as exactly the given map, entry by entry and in order |
| `TfvarsMapReader.LiteralRoundTrip` | src/apply.rs:2773-2819 | the same for the map printer and the literal editor |
| `TfvarsMapReader.HoldsRun` | src/apply.rs:3035-3057 | any run of scalar edits of other keys leaves the first map of a key line for line, wherever it moves |
| `TfvarsMapReader.HoldsLiteral` | src/apply.rs:2786-2819 | so does the literal edit of another map |
| `TfvarsEditor.TfvarsText.ReplaceAssignment` | src/apply.rs:3035-3057 | the loop with its `replaced` flag leaves exactly the specified text |
| `TfvarsEditor.TfvarsText.ReplaceMapAssignment` | src/apply.rs:3059-3105 | the loop with both flags leaves exactly the specified text, which `TfvarsMapReader.MapRoundTrip` reads back as the map |
| `TfvarsEditor.TfvarsText.ReplaceAssignmentLiteral` | src/apply.rs:2786-2819 | the nested loops over one iterator leave exactly the specified text, with its blank-line and line-feed rules |
| `TfvarsEditor.TfvarsText.ReadAssignment` | src/apply.rs:3107-3126 | the loop with its early exits returns what the search specifies |
| `TfvarsEditor.TfvarsText.NormalizePublicBaseUrl` | src/apply.rs:2935-2957 | the two reads and the edit leave the text that the laws of `PublicUrl` are about |
| `TfvarsEditor.RenderTerraformMap` | src/apply.rs:2773-2782 | the printer's text: braces around one line for each entry, in key order; `TfvarsMapReader.LiteralRoundTrip` reads it back |
| `Normalizer.PairsKeepCollapse` | src/apply.rs:2902-2904 | replacing `--` by `-` does not change what one-pass collapsing gives |
| `Normalizer.CollapseDashes` | src/apply.rs:2902-2904 | the rewriting loop ends and equals one-pass collapsing of runs |
| `Normalizer.NormalizeDeploymentNamePrefix` | src/apply.rs:2890-2921 | the statements of the normaliser compute the specified name |
| `Normalizer.ScopeKey` | src/config.rs:255-266 | the character loop of a scope key computes the squeeze core |
| `Normalizer.SqueezeIgnoresTrim` | src/config.rs:301-312 | the core of a prefix is the scope key of the same text: the extra trim changes nothing |
| `Normalizer.SqueezeShape` | src/config.rs:255-266 | a scope key has only lower-case letters, digits and single inner dashes |
| `Normalizer.NormalizeEmpty` | src/apply.rs:2905-2908 | the result is empty if and only if the input has no ASCII letter or digit |
| `Normalizer.NormalizeIsName` | src/apply.rs:2890-2921 | any other result starts with a letter, has at most 24 name characters, no `--` and no dash at the end |
| `Normalizer.NormalizeFixes` | src/apply.rs:2890-2921 | the normaliser fixes exactly the empty string and such names, so it is idempotent |
| `Normalizer.SqueezeIsWords` | src/config.rs:255-266 | a scope key is the longest runs of ASCII letters and digits, in lower case, with one dash between any two |
| `Normalizer.NormalizeExact` | src/apply.rs:2890-2921 | a normalised name is these words, after `greentic-` if they begin with a digit, cut to the longest part of at most 24 characters that does not end in a dash |
| `Normalizer.LowerAlphabet` | src/apply.rs:2896 | capital letters become the small letters at the same place in the alphabet, and nothing else changes |
| `Identity.Fnv1a32` | src/apply.rs:2923-2933 | the loop computes the hash that the laws below are about |
| `Identity.PublishedHashes` | src/apply.rs:2924-2931 | the values published for the empty text and for `a` |
| `Identity.PrefixIsHash` | src/apply.rs:2845 | after `greentic-` a generated prefix has eight digits, the highest first, that stand for the hash |
| `Identity.Utf8Shape` | src/apply.rs:2845 | a character is hashed as one to four bytes, the first of which tells their number, the shortest form |
| `Identity.Utf8Decodes` | src/apply.rs:2845 | the bytes hashed for a character hold its code point |
| `Identity.PrimeInvertible` | src/apply.rs:2925 | multiplication by the prime modulo 2^32 is undone by 899433627 |
| `Identity.AbsorbInjectiveInState` | src/apply.rs:2927-2932 | different hash states stay different while the same bytes follow |
| `Identity.NoSingleByteCollision` | src/apply.rs:2923-2933 | inputs that differ in exactly one byte have different hashes |
| `Identity.SeedInjective` | src/apply.rs:2837-2846 | no two identities share a seed if provider, tenant and environment are free of NUL |
| `Identity.TenantsOneCharacterApart` | src/apply.rs:2837-2856 | tenants one ASCII character apart never share a generated prefix, legacy or stable |
| `Identity.LegacyCollisionIsAvoidable` | src/apply.rs:2830-2834 | of two local identities one ASCII character apart at most one gives the legacy prefix, which would not stick |
| `Identity.GeneratedPrefixIsName` | src/apply.rs:2845 | generated prefixes are names that the normaliser leaves alone |
| `Materialize.MaterializeGeneratedTfvars` | src/apply.rs:2643-2720 | the sequence of in-place edits, with its early exits, writes the layered text or nothing; `Fields` says what is in it |
| `TfvarsReach.MeetsRun` | src/apply.rs:3035-3057 | which of two keys stands first after any run of edits, and whether the search gets there, is told from the text before and the order of the edits |
| `TfvarsReach.MapReach` | src/apply.rs:3059-3105 | a map with entries stops the search for another key exactly if the search meets its place, and otherwise changes neither how far it gets nor the line it gets to |
| `TfvarsReach.LiteralReach` | src/apply.rs:2786-2819 | the same for the literal editor with its own line test |
| `TfvarsReach.RunCommutes` | src/apply.rs:3035-3105 | any run of scalar edits and the edit of a map that has a line give the same text in either order |
| `Reading.EarlyKeys` | src/apply.rs:2659-2708 | the layers below the overrides set the prefix once, and neither map nor the host name |
| `Reading.LayeredReach` | src/apply.rs:2659-2715 | after all layers, both map edits included, how far a search for any key gets and the line it gets to, from the example, the layers and the maps |
| `Reading.ReadLayered` | src/apply.rs:2659-2715 | what is read for any key then: the last layer's value as quoted and cut, the example's, or what ended the search |
| `Reading.PrefixSeen` | src/apply.rs:2668-2715 | the prefix can be read if and only if the example does not end the search above it and no map with entries is written above it |
| `Reading.OverrideSeen` | src/apply.rs:2712-2714 | an override is read back as given if and only if the search gets to its key or finds the same text above |
| `Reading.AbsentSeen` | src/apply.rs:2709-2715 | for a key without a line in the example that is if and only if nothing in it ends the search and no map with entries comes first |
| `PublicUrl.WrittenUrl` | src/apply.rs:2935-2957 | what is read for the public base URL in the written file: `https://` and the host name seen, empty in place of a placeholder, and any other URL as it was |
| `PublicUrl.UrlOfName` | src/apply.rs:2946-2955 | a URL made of a host name is a placeholder if and only if the name contains one, whatever spaces and slashes end it |
| `PublicUrl.PlaceholderExact` | src/apply.rs:2946-2955 | a URL is a placeholder if and only if it names such a host anywhere, in any case of letters, or is nothing but slashes |
| `PublicUrl.PlaceholderLeft` | src/apply.rs:2935-2957 | exactly when the written file still holds a placeholder that is not empty, for every host name |
| `Sticky.PrefixChoice` | src/apply.rs:2821-2856 | the prefix of a run, exactly: the caller's if usable, else the file's unless blank or the shared one, else the own one; and when it can be the shared one |
| `Sticky.PrefixReadBack` | src/apply.rs:2826-2832 | what the next run reads as prefix; it is the one written if and only if the search gets to it and it needs no escape, or finds the same above |
| `Sticky.PrefixStays` | src/apply.rs:2821-2835 | whatever file there is at the start, a kept and plain prefix of the first run is used by every later run |
| `Sticky.StickyPrefix` | src/apply.rs:2821-2835 | over any sequence of runs of one deployment every run uses the first generated prefix, although user, workspace and bundle change |
| `Sticky.KeptExactly` | src/apply.rs:2821-2835 | exactly when a run that would generate another prefix keeps the one in use: not blank, not the one that all of the deployment's users share, and reached without an escape or found above |
| `Sticky.EscapedPrefixGrows` | src/apply.rs:2826-2832 | a prefix in the file that needs an escape comes back longer with every run, for any number of runs |
| `Tfvars.EscapeGrows` | src/apply.rs:3036-3039 | a value that was read and needs an escape is read back as its longer escaped form, which needs one again |
| `Sticky.HiddenPrefixIsLost` | src/apply.rs:2821-2835 | if the search is stopped in every written file, each run generates its own prefix, as if there were no file |
| `Layers.LayeredOverride` | src/apply.rs:2659-2715 | the line of each scalar key carries the value of the last layer that sets it, else the example's, across both map edits |
| `Layers.WrittenOverride` | src/apply.rs:2643-2720 | the same in the file that is written, for every scalar key; the public base URL is set once more if the last step writes one |
| `Fields.WrittenField` | src/apply.rs:2643-2720 | the first line of every scalar key in the written file: the last override, else the field of the configuration or of the contract, else the example's line; only the public base URL may be set once more |
| `Fields.IdentityFields` | src/apply.rs:2665-2674 | `cloud` is the provider, `tenant` and `environment` are the configuration's, `deployment_name_prefix` the resolved prefix |
| `Fields.BundleFields` | src/apply.rs:2680-2694 | bundle source and digest, the ARN made of the source, and both registry bases, each under its own name and only if it is set |
| `Fields.CloudFields` | src/apply.rs:2695-2708 | secret prefix, image digest, backend and region, exactly for the clouds that have them |
| `Fields.ImageField` | src/contract.rs:565-590 | which of the two operator images each cloud gets, with and without an image source |
| `Fields.S3ArnOf` | src/apply.rs:2633-2642 | `s3://`, a bucket, slashes and a key become `arn:aws:s3:::`, the bucket, a slash and the key |
| `Fields.S3ArnOnly` | src/apply.rs:2633-2642 | no other address has an ARN |
| `Fields.WrittenEnvMap` | src/apply.rs:2709-2710 | the runtime secrets of a cloud can be read back, entry by entry, from the file that is written |
| `Fields.WrittenSecretsMap` | src/apply.rs:2739-2753 | so can the operator's secrets, from every written file, if there are any |
| `Fields.WhenWritten` | src/apply.rs:2648-2653 | exactly when nothing is needed, when the run fails and when it writes a file |
| `Layers.ExplicitPrefixWrittenRaw` | src/apply.rs:2858-2866 | an explicit prefix ends up raw in the file, usable or not, and exactly when it equals the one resolved |
| `Counterexamples.RepeatedEditChangesText` | src/apply.rs:3043-3056 | on `a\r\r\n` a repeated edit changes the text |
| `Counterexamples.MapEditorsDiffer` | src/apply.rs:2809-2818 | on a text without a final line feed the two map editors write different texts |
| `Counterexamples.AwsPrefix` | src/apply.rs:5936-5997 | on the example of that test the prefix is read back if the map is empty, and not read if it has entries |
| `Counterexamples.AwsHostName` | src/apply.rs:2935-2943 | on that example a host name given as an override is read if the map is empty, and never if it has entries |
| `Counterexamples.AwsPlaceholder` | src/apply.rs:2935-2943 | on that example the host name `x.example.com` leaves a placeholder URL in the written file |
| `Counterexamples.PrefixBelowLabels` | src/apply.rs:3113 | below the closing brace of another map the prefix is not read |
| `Counterexamples.RawPrefix` | src/apply.rs:2858-2866 | `My App` is written as given and resolved to something else |
| `Counterexamples.BackslashGrows` | src/apply.rs:2826-2832 | a prefix `a\b` in the file becomes `a\\b` for the next run |
| `Counterexamples.PaddedLineStays` | src/apply.rs:3043-3053 | a padded `azure_location` is assigned twice after an edit |
| `Paths.AssertNoSymlinkAncestors` | src/path_safety.rs:34-57 | the component loop computes the walk that `Paths.WalkExact` describes, and passes targets outside the root |
| `Paths.CanonicalizeFixes` | src/path_safety.rs:66-72 | a place is its own canonical form if and only if nothing on the way is a link |
| `Paths.WalkIffCanonical` | src/path_safety.rs:34-57 | the walk passes over an existing target of plain names if and only if the target is canonical |
| `Paths.WalkExact` | src/path_safety.rs:34-57 | the walk below a canonical root for every target, missing ones included: it ends at the first link with that error, at the first missing place or at the end with success, and below a file with the error of the system |
| `Paths.WalkImpliesContainment` | src/path_safety.rs:34-83 | then both checks agree on the target itself, below the root; and only then |
| `Paths.NormalizedIsContained` | src/path_safety.rs:61-83 | a relative candidate is accepted if and only if it leads to a canonical place below the canonical root, whatever links and dots it uses |
| `PackRef.VerdictsAreContained` | src/pack_ref.rs:51-112 | both verdicts but invalid, exactly: a plain relative ref is missing if and only if nothing is there, not even a link, and resolved if and only if it leads to a regular file below the canonical environment directory |
| `PackRef.VerdictsWithoutLinks` | src/pack_ref.rs:51-112 | in trees without links the three verdicts, exactly, from names and nodes |
| `PackRef.ScanStaleRevisions` | src/pack_ref.rs:139-165 | the nested loops report split by split and entry by entry |
| `PackRef.ScanReports` | src/pack_ref.rs:139-165 | a report is made if and only if a routed entry's revision has a non-empty missing ref |
| `PackRef.ReportedIsMissing` | src/pack_ref.rs:147-160 | every report is for a routed revision and names a place that does not exist |
| `PackRef.UnroutedIsIgnored` | src/pack_ref.rs:129-136 | adding a revision no split routes to, anywhere in the list, never changes the scan |
| `Contract.Validate` | src/contract.rs:613-642 | the loop with its `seen` set reports the first fault in checking order, and passes only without a fault |
| `Contract.FaultExact` | src/contract.rs:613-642 | there is no fault if and only if the version is known, every flow id is non-blank, no capability is declared twice and plan is among them |
| `Contract.FaultIs` | src/contract.rs:613-642 | which fault is reported, exactly: version, planner flow, then the first entry that is blank or repeats a capability, then a missing plan |
| `Contract.FoundIsValid` | src/contract.rs:748-770 | a contract read from a manifest, current or legacy, is always valid |
| `Contract.FoundExact` | src/contract.rs:748-770 | a contract is found if and only if it is valid and stands under the current key, or under the legacy one where the current key is absent |
| `Contract.FindCapabilityExact` | src/contract.rs:644-648 | in a contract without duplicates the lookup finds an entry if and only if it is declared |
| `Contract.ManifestDraft.SetContract` | src/contract.rs:772-794 | a valid contract is put under the current key, an invalid one changes nothing |
| `Contract.SetThenGet` | src/contract.rs:748-794 | a contract that was set is the one found, over a legacy one, and nothing else changes |
| `Dispatch.DispatchOrder` | src/deployment.rs:168-262 | who wins when several are set: explicit override, provider pack, variables of the strategy, variables of the provider, table; half of a pair is an error |
| `Dispatch.SanitizedAt` | src/deployment.rs:482-493 | a variable name keeps letters, capitalised, and digits, and has an underscore for anything else |
| `Dispatch.SearchPackForDispatch` | src/deployment.rs:347-368 | the nested search loops return the first loadable match with the loadable packs before it |
| `Dispatch.ContractDominates` | src/deployment.rs:135-162 | success means the requested capability and a flow the pack has; with a contract, that is valid, and it gives its own flow and the pack's own id |
| `Dispatch.SamePackSameFlow` | src/deployment.rs:202-231 | two configurations that end at the same pack with a contract agree on pack id and flow, whatever their defaults |
| `Dispatch.UndeclaredAlwaysFails` | src/extension_sources.rs:88-102 | a capability the contract does not declare fails, although the first flow had been taken as default |
| `Dispatch.ProviderPackResolved` | src/extension_sources.rs:81-124 | what comes of a provider pack, exactly: its first flow without a contract, and the declared flow with one; the planner flow that planning starts from is never seen |
| `Dispatch.SelectedIdentity` | src/deployment.rs:140-162 | the dispatch names the selected pack, except exactly when both ids are overridden with another id and the provider pack has no contract |
| `Dispatch.DirectSelection` | src/deployment.rs:305-346 | the first direct candidate that exists is selected before any search, if and only if it loads and is the wanted pack |
| `Dispatch.SearchedSelection` | src/deployment.rs:305-381 | a searched selection is the first match in search order; its candidates are the loadable packs up to it and the capability line |
| `LocalRun.WaitForRuntimeReadiness` | src/apply.rs:1404-1467 | the loop sends the specified probes and pauses |
| `LocalRun.ReadinessTrace` | src/apply.rs:1404-1467 | the requests of a required check, exactly: probes with one pause between any two, up to the first that ends it or the last allowed |
| `LocalRun.ReadinessIsBounded` | src/apply.rs:1436-1461 | at most n probes, pauses only between two probes, and it stops at the first ending answer |
| `LocalRun.ReadinessSucceeds` | src/apply.rs:1408-1466 | it succeeds if and only if it is skipped, or one of the n probes gets 200 or finds curl absent |
| `LocalRun.ApplyTrace` | src/apply.rs:1045-1185 | apply, exactly: its script once, then the readiness check if that run succeeded; applied if and only if both succeeded |
| `LocalRun.DestroyTrace` | src/apply.rs:1077-1131 | destroy, exactly: cleanup if and only if on AWS, the script exited with an error and a cleanup script exists; a second run if and only if the cleanup succeeded; which outcome each trace has |
| `LocalRun.DestroyRuns` | src/apply.rs:1077-1131 | the script runs once, or twice around one cleanup; success if and only if its last execution succeeded |
| `LocalRun.NothingRuns` | src/apply.rs:1045-1061 | an unknown operation or a missing script executes nothing |
| `Handoff.ChainsAgree` | src/apply.rs:894-1038 | the materialising and the status chain choose the same target although they test in different orders |
| `Handoff.ScriptedStatus` | src/apply.rs:1600-1651 | ready if and only if every checked path exists; the reported files are the note and the checked files there |
| `Handoff.TablesAgree` | src/apply.rs:897-1007 | for each scripted target, what the status branch looks for is what the materialiser leaves, and each script written is looked for |
| `Handoff.TerraformTablesAgree` | src/apply.rs:2122-2182 | each script that terraform-runtime.json lists is among the files written |
| `Handoff.TerraformReady` | src/apply.rs:2083-2228 | terraform is ready after every materialisation that copied something |
| `Handoff.AssetReady` | src/apply.rs:3128-3326 | the targets that copy one asset are ready by their own checklist whenever they do not fail, and fail exactly without the asset |
| `Handoff.SubtreeStatus` | src/apply.rs:3168-3425 | the targets that copy a subtree are ready by their own checklist if and only if each checked content file was supplied or was there before |
| `Handoff.ReadyStays` | src/apply.rs:2083-3425 | materialising any target again or beside another keeps what was ready ready |
| `Handoff.ReadyHasLocalScripts` | src/apply.rs:690-894 | whenever the status is ready, local apply and destroy find their scripts |
| `Handoff.LocalScriptsWritten` | src/apply.rs:690-894 | the apply script is the first script the materialiser writes and the destroy script the one after it, or the third for serverless; terraform's are its third and fourth |
| `DeployDirs.ResolveLatestDeployDir` | src/admin_access.rs:279-302 | the stack loop ends on every finite tree and keeps the newest of what it visits |
| `DeployDirs.VisitedIsBelow` | src/admin_access.rs:284-300 | it visits exactly the strict descendants of what is on the stack |
| `DeployDirs.NewestIsFirstMaximum` | src/admin_access.rs:292-295 | the result is the first visited among the newest, and there is none exactly without outputs files |
| `DeployDirs.LatestIsNewestBelow` | src/admin_access.rs:262-312 | over all roots: a strict descendant with an outputs file that is newest among all descendants |
| `DeployDirs.CoveredRootIsIgnored` | src/admin_access.rs:263-275 | a later root that is an earlier one again, or lies below one, has no influence |
| `DeployDirs.CoveredRootKeepsTime` | src/admin_access.rs:263-275 | a covered root anywhere in the list never changes how new the directory found is |
| `DeployDirs.DeeperRootWinsTie` | src/admin_access.rs:263-265 | but a deeper root that comes first can win a tie |
| `SubtreeCopy.CopyDirRecursive` | src/contract.rs:876-905 | the recursion writes and lists every file below a directory, in listing order |
| `SubtreeCopy.CopyFromDir` | src/contract.rs:861-874 | the files below the subtree with the sorted list, nothing for a missing subtree, an error for a file |
| `SubtreeCopy.CopyFromArchive` | src/contract.rs:924-1012 | the archive scan writes and lists the selected entries |
| `SubtreeCopy.StaysBelow` | src/contract.rs:935-945 | a relative name stays below the destination if and only if the name of the entry never leaves the subtree |
| `SubtreeCopy.ScanStaysBelow` | src/contract.rs:924-1012 | a tar or zip scan stays below the destination if and only if no selected name leaves the subtree |
| `SubtreeCopy.PlainNamesStayBelow` | src/contract.rs:978-980 | in particular if the names hold no `..`, as enclosed names from which steps up were resolved |
| `SubtreeCopy.FilesBelow` | src/contract.rs:861-905 | the files below a subtree are the files of the pack whose path goes through it |
| `SubtreeCopy.CopiedIsSubtree` | src/contract.rs:861-905 | what is copied is exactly the packaged files under the subtree, with their bytes |
| `SubtreeCopy.CopiesAgree` | src/contract.rs:841-1012 | directory, tar and zip form of one pack leave the same files and return the same sorted list |
| `Sorting.SortOfPermutation` | src/contract.rs:872-873 | sorting forgets the order in which files were listed |

## Left out

- Reading.LayeredReach: asks the same of an environment map that the run empties, and of no other. This carries over to the laws about reading and about the prefix.
- Dispatch.ContractDominates: candidate and origin texts are structured values, not the formatted strings.
- Sticky.StickyPrefix: how user, workspace and `GREENTIC_DEPLOYMENT_ID` make up the local identity is a parameter; only that it may change is used.
- Layers.LayeredOverride: a map that the run writes and that the example writes over several lines has to be closed and hold only quoted entries, comments and blank lines, and the first line of the environment map must not end in a carriage return; otherwise edits may land inside it and go with it.
- Handoff.TerraformReady: rewriting the terraform root (pruning, backend, main.tf) is a step that may fail or add files.
- SubtreeCopy.CopyFromArchive: what the zip library gives as the enclosed name of an entry is a parameter.
- SubtreeCopy.CopiesAgree: packs with duplicate paths, entries that are not enclosed, or a file at the subtree path itself; empty directories in the destination.
- Identity.TenantsOneCharacterApart: tenants that differ in more than one character can collide, as with any 32-bit hash.
- The mapping from environment variable names to override keys, and the sorting of overrides: the list of overrides is a parameter.
- Merging of generated reports, payload selection and result building in `apply.rs`: field copying.
- `ensure_terraform_variable_declared` and the other rewrites of generated Terraform files: large fixed texts with little logic.
- Trailing slashes and path prefixes of other operating systems: a path is a list of components.
- File system races, unreadable directories and links that form cycles below deploy roots.
- Adapters, command line, JSON schema validation, manifest decoding, archive formats, secrets and telemetry.
- Whether a preview executes anything: a registered executor or local execution runs before the preview flag is looked at.
