# A model of cr's globs, scopes, authenticator chains and server stacks

cr is a container registry. Who may do what in it is written with globs over repository
names, asked for with the scopes of the token flow, and decided after a chain of
authenticators has said who the caller is; behind that, every service is answered by a stack
of servers. This project models those four pieces of code and proves what they decide.

`dafny verify dfyconfig.toml` checks it.

| file | what it holds |
|---|---|
| `Wrappers.dfy`, `Lists.dfy` | options, results, and going over a list in order |
| `Text.dfy` | the functions of Go's `strings` that the code calls, with what each promises |
| `Language.dfy` | what a pattern means: a list of items, and names divided among them |
| `Runs.dfy` | one plain segment of a pattern, runs with stars between, against one segment of a name |
| `Globs.dfy` | `ParseGlob` and `matchSegments` |
| `GlobMeaning.dfy` | what the text of a pattern stands for, and that reading and matching decide it |
| `GlobErrors.dfy` | which patterns are refused, and for what |
| `GlobPrinting.dfy` | writing segments out again; patterns for one name |
| `GlobAlgebra.dfy` | patterns one after the other, and patterns made wider |
| `Sifting.dfy`, `Scopes.dfy`, `ScopeLists.dfy`, `Actions.dfy` | lists with commas, one scope, many scopes, action names |
| `Chains.dfy` | `Chain.Authenticate` and `ask` |
| `Stacks.dfy` | `Build`, `Iter`, `Find` and `SinkOf` |

## How to read it

Strings are sequences of characters, each standing for one byte; nothing needs a character to
be below 256, so every law holds of all byte strings. White space is that of
`unicode.IsSpace`, found byte by byte in its UTF-8 encodings of one, two and three bytes. That
the library finds it the same way in text that is not valid UTF-8 rests on no continuation
byte being able to begin a character.

A pattern has two readings. `GlobMeaning.InLanguage` is the documentation's: the text is split
at `/`, and the name's segments are divided among the pattern's by cut points, a `**` taking
any number, at least one when it is last, and any other segment one that
`GlobMeaning.TextMatches` says its text stands for, star by star and escape by escape. The
other is the code's: runs, collapsed `**`s, a backtracking search and a greedy one.
`GlobMeaning.ParsedMeansText` and `GlobMeaning.Match` say that they agree for every accepted
pattern and every name. The middle layer, `Language`, knows only items that stand for sets of
segments, so its laws hold for any notion of a plain segment.

Authenticators and builders are opaque functions that take the world they act in and give it
back changed. The world is any type, so their own state, state they share, a clock or a
database are all within what is proved.

Three things a reader of the documentation might not expect, all as the code has them:

- Patterns compose, `P/Q` matching what `P` matches, a `/`, and what `Q` matches, exactly when
  `P` does not end in `**`. There the `**` had to take a segment; in the middle it need not.
- `SinkOf` is documented to be the server `Build` was given. When each builder puts one server
  in front of what it is given, it is exactly when that server has nothing behind it and is
  not a nil that something was built in front of (`Stacks.SinkIsWhatWasGiven`): on a sink that
  is itself a stack it goes on to that stack's end (`Stacks.StackAsSink`), and behind nothing
  at all it finds the first server built (`Stacks.NilAsSink`).
- Only the first `(` of a scope's type is looked at, and only past the first byte, so a type
  that begins with `(` is kept whole whatever else it holds.

## Model

| member | source | states |
|---|---|---|
| `Text.SplitSpec` | auth/glob.go:34 | the pieces of a split hold no separator and join to the text; with `Text.SplitOfJoin`, they are the only such pieces |
| `Text.SplitOfConcat` | auth/glob.go:83 | splitting two texts with a separator between gives the pieces of the one and then of the other |
| `Text.SpaceLenExactly` | auth/scope.go:37 | a text begins with white space exactly when it begins with the UTF-8 encoding of one of the characters that `unicode.IsSpace` holds for, listed by code point |
| `Text.TrimSpec` | auth/scope.go:37 | trimming leaves the stretch with only white space on either side of which no first and no last bytes are a white space character |
| `Text.TrimIsDetermined` | auth/scope.go:37 | whatever ignores a white space character at either end and keeps a text with none there gives what trimming gives, on every text |
| `Text.FieldsOfConcat` | auth/scope.go:49 | any white space character between two texts separates their fields and adds none |
| `Text.FieldsOfSolid` | auth/scope.go:49 | a text without white space is its own one field, and has none when it is empty |
| `Text.FieldsAreDetermined` | auth/scope.go:49 | the two rows above determine the fields of every text: whatever obeys both gives them |
| `Language.MatchesIsDenotes` | auth/glob.go:86-103 | trying every length for each `**` from the left succeeds exactly when there are cut points that give each plain item one segment it stands for and each `**` any number, at least one if it is last |
| `Language.DoubledMany` | auth/glob.go:35-38 | a `**` after a `**` changes nothing, wherever the two stand, also at the end where at least one segment is needed |
| `Language.EmptyNameIsNot` | auth/glob.go:86-102 | a pattern with any segment matches no empty list of segments |
| `Runs.LeftmostIsEnough` | auth/glob.go:117-123 | the runs can be placed in order exactly when they can with the first of them at its leftmost place (the exchange argument behind never backtracking) |
| `Runs.SandwichIsFits` | auth/glob.go:112-116 | pinning both ends without overlap and placing the others in order between them is having gaps that weave the runs into the text |
| `Runs.MatchSegment` | auth/glob.go:107-125 | the greedy search answers true exactly when there are gaps between the runs that make up the text, for every list of at least one run |
| `Globs.ParseSegment` | auth/glob.go:42-64 | the loop over the bytes reads what `ReadRuns` reads, which `GlobMeaning.RunsMeanText`, `GlobErrors.RefusedExactly` and `GlobPrinting.ReadPrintedRuns` pin down |
| `Globs.ParseGlob` | auth/glob.go:32-68 | the first error of a segment, or all segments with each `**` after a `**` dropped, every plain one with the run that matching needs, and the text it was read from kept |
| `Globs.MatchSegments` | auth/glob.go:86-103 | true exactly when cut points exist, and in at most (segments + 1) * (name segments + 1) ^ (number of `**`) calls, itself among them |
| `Globs.DeepCountIs` | auth/glob.go:90 | the exponent of that bound is the number of places where a `**` stands |
| `GlobMeaning.RunsMeanText` | auth/glob.go:42-65 | the runs a segment is read as weave into exactly the texts that its own text stands for, with `\` and `*` taken as documented |
| `GlobMeaning.CollapseKeeps` | auth/glob.go:35-41 | dropping every `**` that follows a `**` keeps the names matched, for any segments and whatever comes after them |
| `GlobMeaning.ParsedMeansText` | auth/glob.go:8-17 | the segments of an accepted pattern match exactly the names in the language of its text |
| `GlobMeaning.Match` | auth/glob.go:82-84 | for a glob that was read, true exactly when the name is in the language of the glob's source text |
| `GlobMeaning.ZeroGlobMatchesNothing` | auth/glob.go:82-89 | a glob with no segments matches no name, the empty one included |
| `GlobErrors.RefusedExactly` | auth/glob.go:46-65 | a segment is refused exactly for two adjacent unescaped stars, or else for an unescaped `\` at its end; one that is read has one run more than unescaped stars |
| `GlobErrors.ParseFailsExactly` | auth/glob.go:32-68 | a pattern is refused exactly when some segment other than `**` is malformed |
| `GlobErrors.ParseErrorIs` | auth/glob.go:49-57 | the error is that of the first malformed segment, and two stars outrank a `\` at the end |
| `GlobErrors.SlashCannotBeEscaped` | auth/glob.go:34-51 | an unescaped `\` before any `/` of a pattern is refused, since the pattern is split before escapes are read; with nothing else wrong up to there the error is that nothing comes after it |
| `GlobPrinting.ParsedIsWellFormed` | auth/glob.go:32-68 | accepted patterns are read as at least one segment, no two `**` side by side, a run in every plain segment, none empty between stars and none with a `/` |
| `GlobPrinting.ParseOfPrint` | auth/glob.go:32-68 | all such lists of segments, printed with escapes, are read back as they were |
| `GlobPrinting.PrintKeepsMeaning` | auth/glob.go:32-84 | a pattern printed from what it was read as stands for the same names |
| `GlobPrinting.EscapedNameIsItself` | auth/glob.go:15-17 | a name with its `*` and `\` escaped is accepted as a pattern and matches that name and no other |
| `GlobPrinting.PlainPatternIsItself` | auth/glob.go:17 | a pattern without `*` and `\` matches its own text and nothing else |
| `GlobAlgebra.PatternsCompose` | auth/glob.go:8-17 | for accepted P and Q, P/Q matches exactly the names that are one of P, a `/` and one of Q, if and only if P does not end in `**` |
| `GlobAlgebra.UnderPattern` | auth/glob.go:12-14 | P followed by `**` matches exactly what is under a name that P matches, when P does not end in `**` |
| `GlobAlgebra.AcceptedPair` | auth/glob.go:34-65 | P/Q is accepted exactly when P and Q both are |
| `GlobAlgebra.WiderSegmentKeeps` | auth/glob.go:86-125 | replacing a segment, wherever it is, by one that stands for at least as much keeps the pattern accepted and every name matched |
| `GlobAlgebra.DeepIsWider` | auth/glob.go:90-101 | any segment can be replaced by `**` without losing a name |
| `GlobAlgebra.StarIsWider` | auth/glob.go:11 | any segment other than `**` can be replaced by `*` without losing a name |
| `Scopes.ParseScope` | auth/scope.go:24-42 | the method reads what `ReadScope` does, pinned down by the rows below |
| `Scopes.ReadsExactly` | auth/scope.go:25-29 | a text is a scope exactly when it has two colons and does not begin with one |
| `Scopes.ReadOfShape` | auth/scope.go:21-41 | a text that is a non-empty type without colons, a colon, any name, a colon and actions without colons is read as those three, the type cut at `(` |
| `Scopes.TypeIsCut` | auth/scope.go:30-34 | a type followed by `(` and anything up to the colon is read as the type alone, and the whole text as it would be without that |
| `Scopes.TypeIsKept` | auth/scope.go:30-34 | a type with no `(`, or that begins with one, is kept whole |
| `Scopes.ActionsOfConcat` | auth/scope.go:36 | a comma separates actions and adds none |
| `Scopes.ActionsOfPiece` | auth/scope.go:36-39 | what stands between commas is an action once trimmed, unless nothing is left of it; the two rows together say what the actions of any text are |
| `Scopes.PrintsBackExactly` | auth/scope.go:24-62 | printing what was read gives the text back if and only if its type has nothing to cut and its actions, none included, are trimmed words with single commas between |
| `Scopes.RoundTrip` | auth/scope.go:60-62 | reading a printed scope gives it back if and only if its type is non-empty with no colon and nothing to cut at `(`, and its actions are non-empty and trimmed with no comma or colon |
| `Scopes.ReadIsPrintable` | auth/scope.go:24-42 | every scope that was read meets that condition |
| `Scopes.NormalForm` | auth/scope.go:24-62 | printing what was read and reading it again changes nothing, for every accepted text |
| `ScopeLists.ParseScopes` | auth/scope.go:46-58 | the scopes of all fields of all values in order, or the error of the first field that is none |
| `ScopeLists.ReadFieldsIs` | auth/scope.go:48-56 | reading succeeds exactly when each field is a scope, and each is read as it would be alone |
| `ScopeLists.FirstBadField` | auth/scope.go:50-53 | the failure is about the first field that is not a scope |
| `ScopeLists.JoinedValuesReadTheSame` | auth/scope.go:44-49 | all values in one with spaces between are read, or fail, the same |
| `ScopeLists.RegroupedValuesReadTheSame` | auth/scope.go:44-49 | and so in any grouping of the values |
| `ScopeLists.ListRoundTrip` | auth/scope.go:46-62 | scopes printed with spaces between are read back if and only if each could be read alone and holds no white space |
| `ScopeLists.ListNormalForm` | auth/scope.go:46-62 | whatever was read, printed in one value, is read as the same scopes |
| `Actions.ParseActions` | auth/auth.go:45-56 | the known among the trimmed comma pieces of all values, in order |
| `Actions.Strings` | auth/auth.go:59-65 | a new array with the same names in the same order |
| `Actions.WordsRoundTrip` | auth/auth.go:45-65 | a list of words is read back as it was if and only if each is a known action, `*` among them |
| `Actions.WordIsRead` | auth/auth.go:18-50 | one word is read back as it was if and only if it is `pull`, `push`, `delete`, `tag`, `catalog`, `search`, `admin` or `*` |
| `Actions.ReadOfPiece` | auth/auth.go:48-52 | a piece without commas is read as what trimming leaves of it when that is one of those eight, and as nothing otherwise |
| `Actions.ReadOfComma` | auth/auth.go:48 | a comma in a value separates pieces and adds none |
| `Actions.JoinedReadsTheSame` | auth/auth.go:48 | one value with the others joined by commas says what they said, for any values, none included |
| `Actions.ReadIsNormal` | auth/auth.go:45-65 | what was read is read back, from words or from one value |
| `Actions.ReadOfConcat` | auth/auth.go:46-55 | two lists of values are read one after the other |
| `Actions.ScopeActionsReadTheSame` | auth/scope.go:36-40 | the actions kept by a scope name the same known actions as the text they came from |
| `Actions.ScopeGrants` | auth/scope.go:36-40 | for a scope that was read, that text is all after the last colon |
| `Chains.IsExactly` | auth/auth.go:120 | looking into wrapped errors finds the target exactly when some path of indices through them leads to it |
| `Chains.NotMineGoesOn` | auth/auth.go:118-122 | a member whose error is `ErrNotMine`, or wraps it at whatever depth, is passed over, in the world it leaves |
| `Chains.NotMineAllGoesOn` | auth/auth.go:118-124 | so are any number of them one after the other, and the chain goes on behind them in the world the last one left |
| `Chains.OtherErrorDecides` | auth/auth.go:118-123 | any other error ends the chain there and is its answer, with no subject |
| `Chains.ErrorHasNoSubject` | auth/auth.go:130-134 | a refusal of a chain comes with the zero subject, whatever the member that refused had put beside its error |
| `Chains.World.AuthenticateChain` | auth/auth.go:117-126 | exactly a first part of the chain is asked, each after what those before it did to the world: all but its last declined, and the last decided, or all declined and the credential is refused |
| `Chains.FirstThatKnows` | auth/auth.go:113-115 | the first member that does not decline decides, and the world is as it left it |
| `Chains.NobodyKnows` | auth/auth.go:125 | when all decline all are asked and the answer is that the credential is wrong |
| `Chains.RunHasDecision` | auth/auth.go:117-126 | whatever the members do there is a decision |
| `Chains.AskedIsUnique` | auth/auth.go:117-126 | and one only: both who is asked and what is answered |
| `Chains.ChainNeverDeclines` | auth/auth.go:113-115 | no path through the error of any chain leads to `ErrNotMine`, the error itself included |
| `Chains.RunOfConcat` | auth/auth.go:117-126 | a chain of two parts is the first part's decision, or, when all of that declined, the second's in the world the first left |
| `Chains.NestedDecides` | auth/auth.go:113-115 | a chain as a member always decides: nobody after it is asked |
| `Chains.FlatteningChanges` | auth/auth.go:117-126 | putting its members in its place keeps the decision if and only if some member knows the name or those after would refuse and change nothing |
| `Chains.ViaIsKept` | auth/auth.go:135-138 | the subject of whoever accepts comes through whole, its `Via` kept if set and otherwise the kind of the member asked |
| `Stacks.Iter` | api/store.g.go:251-266 | the consumer is given the walk from the outermost server on, up to the first server after which it wants no more |
| `Stacks.Find` | api/store.g.go:281-290 | the first server of the walk that is of the type asked for |
| `Stacks.FirstOfIs` | api/store.g.go:281-290 | which is one with none of the type before it, and nothing exactly when there is none |
| `Stacks.SinkOf` | api/store.g.go:300-305 | the last server of the walk |
| `Stacks.SinkIsItself` | api/store.g.go:292-299 | that is the server asked about if and only if it has nothing behind it |
| `Stacks.World.Build` | api/store.g.go:348-360 | a first part of the builders runs, each given what the one before it built; all do and the last server built is the answer, or the last of them failed, is named, and nothing ran after it |
| `Stacks.OutcomeIsUnique` | api/store.g.go:348-360 | that leaves one outcome |
| `Stacks.RunOfConcat` | api/store.g.go:340-360 | with two lists of builders a failure among the first is the failure of both and none of the second runs; else the second go on from what the first built, with their outcome, the builder that failed counted on |
| `Stacks.WalkOfBuilt` | api/store.g.go:340-346 | when each builder puts one server in front, the walk is the servers built in reverse and then the sink's own walk |
| `Stacks.WalkOfLayers` | api/store.g.go:340-346 | when each builder puts any servers of its own in front, none included, the walk is all of them, the last builder's first, and then the sink's; `SinkOf` is still that of a sink that is not nil |
| `Stacks.FindInBuilt` | api/store.g.go:268-290 | `Find` asks the servers built, the last first, before the sink's stack |
| `Stacks.SinkOfBuilt` | api/store.g.go:292-305 | and `SinkOf` is that of the sink, if and only if the sink is not nil or nothing was built |
| `Stacks.SinkIsWhatWasGiven` | api/store.g.go:292-305 | `SinkOf` what was built in that way is the very server `Build` was given if and only if that has nothing behind it and is not a nil with something built in front |
| `Stacks.StackAsSink` | api/store.g.go:296 | a stack given as the sink is not what is found, its end is |
| `Stacks.NilAsSink` | api/store.g.go:296 | with a nil sink the first server built is found |
| `Stacks.WrappersWrap` | api/store.g.go:340-357 | builders that wrap whatever they are given, in any world, build stages that each have the one before as their next |
| `Stacks.BuiltByWrappers` | api/store.g.go:340-360 | so the walk of what `Build` gives back is what they built in reverse and then the sink's walk, and the condition for `SinkOf` is as above |

## Left out

- `MustGlob`, `Glob.String`, and the texts of all errors; of an error only which it is, and what it is about, is kept.
- A `segment` with no runs, which `ParseGlob` never makes and on which `match` would panic, is outside `Runs.MatchSegment` and `Globs.MatchSegments`; `Globs.ParseGlob` promises that it gives none.
- The difference between a nil and an empty Go slice.
- Inner loops that Go writes inline (over a segment's bytes, a scope's actions, the fields of one value) are methods of their own here.
- `Find` and `SinkOf` walk the stack in loops of their own here, where Go ranges over `Iter`.
- Stacks.Walk: a server's `Next` gives the same server each time and no stack is circular; `Iter` over a circular one would not end.
- Stacks.WalkOfBuilt: it is about builders that put one server each in front; those that put several or none are `Stacks.WalkOfLayers`.
- Chains.Is: an error with an `Is` method of its own is not modelled.
- The `context.Context` of an authenticator is part of the world it acts in.
- Hashing, constant-time comparison and expiry of tokens (`auth/secret.go`, `auth/token.go`): each is one possible authenticator.
- Policies over globs, `auth/policy.go`: their use of a glob is one call of `Match` each.
- The services themselves, the generated accessors under `api/`, the index, the collector, the archive and the command line.
