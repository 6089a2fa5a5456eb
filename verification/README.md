# Midnight Commander: models and proofs

These modules model the parts of GNU Midnight Commander that are algorithms rather than user
interface, and prove what they promise. Code that works in place is modelled in place: C strings
are `array<char>` buffers with a NUL, static tables and objects are classes, loops are loops with
invariants. Each such method is tied to a function of its inputs or of its old state, and the
promises are lemmas about that function.

**Paths.** `PathAlgebra` defines components, normal forms and what a path means when it is
followed name by name. `PathBuffer` and `Canonicalize` are the passes of
`custom_canonicalize_pathname` over the buffer, with the one that cancels `token/..` while the
text shrinks, for the paths that `PlainPath` calls plain: no colon stands before a separator, so that
no `://` can be seen, and no component starts with `#enc:`. Two paths have the same normal form
exactly when they lead to the same place from every directory. On top of it: `BuildFilename`
(`mc_build_filenamev`) and `RelativePath` (`diff_two_paths`).

**Search patterns.** `Regex` gives the fragment of regular expressions that the translators emit a
parser and a matching semantics. `Glob`, `GlobMeaning` and `GlobLiterals` cover shell patterns.
`RegexReplace` is the expansion of a replacement text with its groups, its characters by number and its
case conversions; `ReplaceMeaning` says what conversions are meant to do and when they do it,
`ReplaceSwitches` what that is letter by letter, `ReplaceEscapes` which characters come out as written or by their number; `GlobReplace` has replacements
with wildcards and `GlobGroups` the groups that they are filled from. `RegexLiterals` says which texts
stand for themselves as regular expressions; `TextSearch` has normal and hexadecimal patterns.

**Protocols.** `BackgroundProtocol` and `BackgroundSafety` are the calls of a background process
into its parent as steps over two byte pipes, in every interleaving; `BackgroundPipes` is the code
at both ends. `LockName` and `FileLock` are the `.#FILE` lock: its text, one process alone, and any
number of processes whose system calls interleave.

**Round trips and stores.** `Serialize` is the serializer of configurations and its three-state
reader; `TextLines`, `FilePosition`, `RecordLines`, `PositionStore` and `PositionRuns` are the file of
saved positions, a text that is read in pieces of a line or a full buffer; `History` has the input
histories, `NameQuote` the quoting of names for a shell whose special characters are those of
POSIX.1-2017, Shell Command Language, section 2.2.

**Arithmetic and tables.** `SizeTrunc` prints sizes, `CaseOrder` and `Keybind` are the sorted
registry of command names and how the keys of a keymap file get their actions, `OwnerCache` the ring
of user names, `HelpHistory` the ring of visited help pages. `Numbers` has decimal notation as printf
writes and atol reads it; `Sequences` and `Wrappers` are small shared helpers.

## Where the code falls short of what one would expect

Each of these has its exact condition or a concrete input, or both, as a lemma.

- Normalising each element and then the path is normalising the join, unless joining makes a
  `//server/` prefix that the first element did not have (`BuildFilename.BuiltIsNormalisedJoin`,
  `BuildFilename.BuiltOfAny`).
- A relative path leads to the second path unless the first has an empty component behind the part
  that both share, which is counted as a step up (`RelativePath.RelativeLeadsIff`); the rewriting of
  paths leaves one behind a colon, as in `/x://y` (`RelativePath.EmptyComponentMisleads`).
- A pattern character stands for itself unless it is one that the translator lets through raw, one
  that it escapes a second time, or a letter or digit behind a backslash that has a meaning there
  (`GlobLiterals.LiteralWorksIffProper`, where the letters and digits whose meaning is modelled are
  decided).
- Behind `\u` or `\l`, with neither `\U` nor `\L` in force, the text that is appended next loses all of its
  characters but the first (`RegexReplace.AppendedInFullIff`): `\u*` makes just `N` of `name`
  (`GlobReplace.InitialOnly`). A case switch also converts the text directly before it, and undoes what an
  earlier switch meant for that text: `ab\Ucd` gives `ABCD` (`ReplaceMeaning.SwitchReachesBack`). So a replacement
  with no `\u`, `\l` or `\E` directly behind an ordinary character comes out as meant with all groups exactly when
  no `\u` or `\l` stands there in front of a group or of more characters than it is for, and no `\U` or `\L` behind
  characters that it would change (`ReplaceMeaning.AllAsMeantIff`); between two texts every switch is decided
  (`ReplaceMeaning.SwitchIsRight`).
- Such a replacement by shell pattern comes out as meant with all groups when besides it has at most nine wildcards,
  and only then (`GlobReplace.NineIsTheMost`): a colon stands for the tenth (`GlobReplace.TenthWildcard`,
  `GlobReplace.TenAsterisks`).
- A backslash makes a character stand for itself exactly when it is no digit, no letter with a meaning, no `x` and no
  brace (`ReplaceEscapes.EscapedAsWritten`): behind an escaped brace two characters more are taken as they are
  (`ReplaceEscapes.BraceTakesMore`). A text without backslashes comes out as written exactly when it has no `${`
  with a digit behind it (`ReplaceEscapes.BareAsWrittenIff`); if that is not closed, the dollar sign is lost
  (`ReplaceEscapes.DollarIsLost`).
- A character by its number comes out in UTF-8 exactly when it is below 0x10000
  (`ReplaceEscapes.CharacterByNumber`); for U+1F600 one gets U+5F600 (`ReplaceEscapes.AnotherCharacter`).
- Text between quotes in a hexadecimal search goes into the expression as it is, so it finds just the
  texts that contain it exactly when no character of it means something there
  (`TextSearch.QuotedIsLiteralIff`); `"a.b"` finds `axb` (`TextSearch.QuotedDot`).
- A hexadecimal number beyond 32 bits is cut before its range is looked at (`TextSearch.RangeCheck`), and so is a
  negative one: `-ffffffff` passes for the byte 1 (`TextSearch.MinusRange`).
- `${4294967297}` names group 1 (`ReplaceEscapes.BigName`).
- When a background process ends without its last call, its task stays in the list exactly if one of
  its calls has sent a context (`BackgroundPipes.DeadTaskIsTakenOut`).
- A process number of ten digits is read back without its last one (`LockName.PidOfName`).
- Locking is safe in all runs exactly when no lock is stale at the start
  (`FileLock.SafeIffNoStaleLock`); grabbing a lock, or unlocking a file that one does not hold, breaks
  it as well (`FileLock.GrabRace`, `FileLock.StrayUnlockRace`).
- A configuration survives its round trip exactly when it is not empty and no group is
  (`Serialize.RoundTrip`, `Serialize.EmptyGroup`); one that breaks off behind a key is taken without complaint
  (`Serialize.EndsAtKey`).
- A saved position is found again exactly when there was a file before the save, the name has no
  newline, and the line buffer has room for what is wanted of the record; or when the position is the
  one that is given for unknown names (`PositionStore.SaveThenLoad`, `RecordLines.CutReads`): the first
  save leaves an empty file. Names are kept apart exactly when the name saved has no newline and leaves
  room for a space (`PositionStore.KeptApartIffNoNewline`); the position of `/x`, newline, `/y` is what
  `/y` gets (`PositionStore.NewlineCollides`). A name that fills the line buffer is lost
  (`PositionStore.LongNameIsLost`), and a negative offset comes back as the biggest one
  (`FilePosition.ReadRecord`).
- A quoted name is the name again exactly when it is not empty and has no newline, and in the place of
  a command is no assignment and no reserved word, and in that of a job does not start with `%`
  (`NameQuote.QuotedIsName`): `=` and `%` are left unquoted everywhere (`NameQuote.LeftBare`).
- The biggest sizes overflow when they are rounded or rescaled, and what is printed for them is far
  from the size (`SizeTrunc.NearIffNoOverflow`, `SizeTrunc.BiggestVanish`).
- The number of an unknown user is shown in full exactly when it has at most nine digits
  (`OwnerCache.NumberShownInFull`).
- More than twenty Backs in a row go round the ring: from the twenty-first on, each is right exactly
  when two entries of the history happen to be the same (`HelpHistory.NthBack`).

## Model

| member | source | states |
|---|---|---|
| PathBuffer.StrMove | lib/strutil.h:619-628 | the tail of the C string slides down over what stood before it, and the text before the rewritten part stays |
| PathBuffer.CollapseSlashes | lib/utilunix.c:856-864 | with its test for a colon, on a plain text: afterwards no two separators are adjacent; the names, and whether the path is absolute, are those of before, and the text is plain and not longer |
| PathBuffer.CollapseDotSteps | lib/utilunix.c:866-871 | afterwards there is no `/./` either, with the same names |
| PathBuffer.RemoveTrailingSeps | lib/utilunix.c:878-885 | with its stop at `://`, which a plain text does not have: a text of two characters or more does not end in a separator any more; names kept |
| PathBuffer.RemoveSlashDots | lib/utilunix.c:874-919 | the buffer holds exactly the printed names of a plain path; the early returns happen only with a text of one character |
| Canonicalize.RemoveDoubleDots | lib/utilunix.c:921-1053 | the backward pass ends, keeps the text plain, and turns the printed names into the printed normal form, in which every `..` that can be cancelled is |
| Canonicalize.SkipUnc | lib/utilunix.c:842-849 | finds the length of a well-formed `//server` prefix, 0 if there is none |
| Canonicalize.CanonicalizeLocal | lib/utilunix.c:851-1053 | all passes together write the local normal form behind the prefix, never longer than the text, and leave the prefix alone |
| Canonicalize.CustomCanonicalizePathname | lib/utilunix.c:835-1054 | for every path that is plain behind its prefix, the buffer ends up with the prefix and the normal form of the rest, plain and no longer than it was |
| Canonicalize.CanonIdempotent | lib/utilunix.c:823-833 | rewriting twice is rewriting once, and the `//server` prefix is the same |
| Canonicalize.CanonLeavesNothingToDo | lib/utilunix.c:823-833 | no `//`, `.`, trailing separator or cancellable `..` is left in the local part |
| Canonicalize.ServerStays | lib/utilunix.c:842-849 | only a name behind two separators, with a separator behind it, stays as it is; other separators at the beginning are one |
| PathAlgebra.CanonKeepsMeaning | lib/utilunix.c:823-833 | from every directory the rewritten path leads where the path did, with or without cancelling `..` |
| PathAlgebra.CanonDecidesMeaning | lib/utilunix.c:823-833 | two paths get the same normal form if and only if they lead to the same place from every directory |
| BuildFilename.Canonicalized | lib/utilunix.c:1333-1337 | an element is rewritten in a buffer of its own to its normal form |
| BuildFilename.AppendPiece | lib/utilunix.c:1338-1343 | the leading separator is dropped, and one is put behind unless the piece ends in one or is the last |
| BuildFilename.McBuildFilenamev | lib/utilunix.c:1308-1357 | NULL for no element; else the pieces normalised one by one, joined and normalised again, for all plain elements of which only the last may end with a colon; whether it is absolute and what an absolute element behind the first makes of it, AbsoluteIff and BuiltOfAny say |
| BuildFilename.BuiltIsNormalisedJoin | lib/utilunix.c:1308-1357 | if only the first element may be absolute, the result is the normal form of the non-empty elements joined, if and only if the join has no `//server/` prefix or the first element already had one |
| BuildFilename.BuiltOfAny | lib/utilunix.c:1308-1357 | an absolute element behind the first counts as the same without its leading separator: for all lists without a `//server/` prefix behind the first element, the result is absolute if and only if the first element is, and is the normal form of the join of the elements so taken, under the condition of BuiltIsNormalisedJoin |
| BuildFilename.AbsoluteIff | lib/utilunix.c:1318-1322 | for all lists: the result is absolute if and only if the first element is, or the first that adds anything has a `//server/` prefix |
| BuildFilename.EmptyFirst | lib/utilunix.c:1318-1322 | the input: an empty element and then `/path` give `path` |
| BuildFilename.JoinCanInventAServer | lib/utilunix.c:1308-1357 | the exception is real: `/` and `s/x` |
| RelativePath.SkipShared | lib/sub-util.c:1036-1057 | the loop stops behind the common leading components of both paths; the last component of either never counts |
| RelativePath.CountLeft | lib/sub-util.c:1058-1060 | counts the components that are left of the first path |
| RelativePath.DiffTwoPaths | lib/sub-util.c:1016-1080 | NULL if a path cannot be resolved; else a buffer exactly as long as its text and NUL, with one `../` for each component left of the first path and then the rest of the second |
| RelativePath.RelativeLeadsToSecond | lib/sub-util.c:1010-1014 | following the result from the first path, taken as a directory, lands on the second, for all resolved absolute paths |
| RelativePath.RelativeLeadsIff | lib/sub-util.c:1010-1080 | for all absolute paths that only go down, `//server` paths among them: the result leads to the second if and only if no empty component of the first is behind the shared part, or that part is the root |
| RelativePath.EmptyComponentMisleads | lib/sub-util.c:1010-1080 | the input: from `/x://y` to `/x:/z` the result climbs one step too far |
| RelativePath.ServersToo | lib/sub-util.c:1010-1014 | so it does from every `//server/dir` |
| Glob.IsCharEscaped | lib/strutil/strescape.c:242-258 | a character is escaped exactly behind an odd run of backslashes |
| Glob.GlobTranslateToRegex | lib/search/glob.c:46-111 | the loop emits, character by character, the translation that the meaning lemmas are about |
| GlobMeaning.TranslateItems | lib/search/glob.c:46-111 | a well-formed pattern becomes wildcard groups, alternatives in one group per brace, and its literals |
| GlobMeaning.ParseGlob | lib/search/glob.c:161-178 | the text, with or without anchors, parses to the expression of the pattern |
| GlobMeaning.EntireLineSearch | lib/search/glob.c:161-178 | the anchored text finds w exactly if the pattern matches w up to the end or up to the newline that ends it |
| GlobMeaning.EntireLineSearchOfLine | lib/search/glob.c:161-178 | on text without newlines it finds exactly what the pattern matches |
| GlobMeaning.SubstringSearch | lib/search/glob.c:161-178 | without anchors it finds exactly the texts with a matching part |
| GlobMeaning.BarIsNotLiteral | lib/search/glob.c:105-108 | `a\|b` finds `ax`: the bar goes through raw |
| RegexReplace.ProcessAppendStr | lib/search/regex.c:626-679 | with no conversion in force copies the text; else goes through it character by character and appends a character only while a conversion is left for it |
| RegexReplace.AppendedInFullIff | lib/search/regex.c:636-677 | one call uses up the conversions as it should; it writes the text in full if and only if none is in force, or a lasting one, or the text is no longer than there are conversions of one character, and else just as many characters as those |
| RegexReplace.ReplaceHandleEscSeq | lib/search/regex.c:452-530 | finds the end of an escape sequence, with the digits in braces counted also where they are not closed |
| RegexReplace.ProcessReplaceStr | lib/search/regex.c:534-622 | tells what stands at a place, and how long it is: a group, a switch, an escape sequence, a text that stands for itself, or an ordinary character; behind an odd run of backslashes the character is dropped |
| RegexReplace.ProcessEscapeSequence | lib/search/regex.c:683-782 | reads the number of a character, in 32 bits, or takes that of a control character, and appends its bytes |
| RegexReplace.GetMaxNumOfReplaceTokens | lib/search/regex.c:387-427 | the loop gives the biggest number of a group that is named anywhere |
| RegexReplace.NamesAreCounted | lib/search/regex.c:1067-1074 | every group that the expansion comes to was counted before, so the test of the number in the main loop cannot fail |
| RegexReplace.PrepareReplaceStr | lib/search/regex.c:995-1093 | nothing if a named group is not there; else the loop with its kept-back text computes the expansion of the pieces |
| ReplaceSwitches.SwitchesMean | doc/man/mc.1.in:2743-2753 | what is meant by two switches with texts around them, letter by letter: `\E` ends all conversions, `\u` and `\l` are for the next character, in this order, and go before `\U` and `\L`, of which the later one counts |
| ReplaceMeaning.ExpandedAsMeantIff | doc/man/mc.1.in:2743-2753 | if no `\u`, `\l` or `\E` stands directly behind an ordinary character: every character and group is written in full with the conversions in front of it, if and only if there are conversions for every text that is appended at once, and no `\U` or `\L` changes the text in front of it; the expansion is never longer. For all such replacements and all groups |
| ReplaceMeaning.AllAsMeantIff | doc/man/mc.1.in:2743-2753 | it comes out so for all groups if and only if no `\u` or `\l` without `\U` or `\L` in force stands in front of a group, or of more characters than it is for, and no `\U` or `\L` behind characters that it would change; or a group is named that no match has |
| ReplaceMeaning.SwitchIsRight | lib/search/regex.c:1044-1052 | a switch between two texts does what is meant if and only if: `\U`, `\L`: the first has no letter that it converts; `\u`, `\l`: the first is empty and the second has at most one character, or the first is one character and neither it nor the next is converted; `\E` always |
| ReplaceMeaning.SwitchReachesBack | lib/search/regex.c:1044-1052 | the input: `ab\Ucd` gives `ABCD`, where `abCD` is meant |
| ReplaceMeaning.RestIsLost | lib/search/regex.c:642-677 | the input: `\uab` gives `A`, where `Ab` is meant |
| ReplaceEscapes.BracedHex | lib/search/regex.c:481-496 | `\x{`, hexadecimal digits and `}` are the character of that number, cut to 32 bits, whatever follows |
| ReplaceEscapes.BracedOctal | lib/search/regex.c:461-472 | so are `\{`, octal digits and `}` |
| ReplaceEscapes.BareHex | lib/search/regex.c:511-519 | and `\x` with one or two hexadecimal digits, where a second one always counts |
| ReplaceEscapes.ControlIsNumber | lib/search/regex.c:722-747 | in every text, at a place where a piece ends, and for all matches, `\a` `\b` `\t` `\n` `\v` `\f` `\r` expand to the same as `\x{7}` `\x{8}` `\x{9}` `\x{a}` `\x{b}` `\x{c}` `\x{d}` |
| ReplaceEscapes.ByteByNumber | lib/search/regex.c:702-751 | outside of UTF-8 two hexadecimal digits, or three octal ones, give just the byte of that number, for all bytes |
| ReplaceEscapes.NamedGroup | lib/search/regex.c:546-574 | `${`, a decimal number below 2^31 and `}` name the group of that number |
| ReplaceEscapes.GroupAlone | lib/search/regex.c:1016-1035 | and that group comes out as it is, if the match has it and its number is at most 64; else there is no text at all |
| ReplaceEscapes.BigName | lib/search/regex.c:546-574 | of a bigger number a long keeps what it can and an int the last 32 bits: if that is not negative it is the group that is named |
| ReplaceEscapes.NameWithMore | lib/search/regex.c:546-574 | the name may go on with characters from `:` to `?`, at which the number ends |
| ReplaceEscapes.BrokenName | lib/search/regex.c:557-563 | a name that anything but its brace follows is taken as it is, without its dollar sign |
| ReplaceEscapes.EscapedAsWritten | lib/search/regex.c:576-621 | a backslash makes a character stand for itself, whatever follows and for all groups, if and only if it is no digit, no letter for a control character, no switch, no `x` and no opening brace |
| ReplaceEscapes.BareAsWrittenIff | lib/search/regex.c:546-574 | a text without a backslash comes out as written for all groups if and only if no `${` with a character from 0 to ? stands in it |
| ReplaceEscapes.BraceTakesMore | lib/search/regex.c:473-478 | the input: in `\{a\1` the group is not used, because the two characters of the escape are counted twice |
| ReplaceEscapes.BraceThenBackslash | lib/search/regex.c:576-582 | a backslash behind the one that such a brace has taken is dropped |
| ReplaceEscapes.BraceThenName | lib/search/regex.c:551-555 | and so is the dollar sign of a name there |
| ReplaceEscapes.DollarIsLost | lib/search/regex.c:562-563 | the input: `${1x` gives `{1x` |
| ReplaceEscapes.CharacterByNumber | lib/search/regex.c:753-781 | in UTF-8 a hexadecimal number in braces gives its character, as RFC 3629 reads it, if and only if it is that of a character and below 0x10000 |
| ReplaceEscapes.BigNumberGives | lib/search/regex.c:770-780 | from there on it gives the character whose number has the bits above the eighteenth two places higher, or no character; and nothing from 0x10FFFF on |
| ReplaceEscapes.AnotherCharacter | lib/search/regex.c:770-780 | the input: `\x{1f600}` gives the UTF-8 of U+5F600 |
| GlobLiterals.LiteralWorksIffProper | lib/search/glob.c:56-109 | a search for one character, bare or behind a backslash, finds that character and no other line, if and only if it is no backslash, bracket, bar or sign when bare, and when escaped no `+.$()^` and no letter or digit with a meaning; letters and digits whose meaning is not modelled are left open |
| GlobReplace.TranslateReplaceGlobToRegex | lib/search/glob.c:115-157 | the loop numbers the wildcards from 1 and escapes `&`; what is escaped stays |
| GlobReplace.PiecesOfParts | lib/search/glob.c:115-157 | with at most nine wildcards the translation of a replacement is taken for just its parts: group n for the n-th wildcard, named groups, characters by number, control characters, switches, and all others as written |
| GlobReplace.ReplacementExpands | lib/search/glob.c:115-157 | so expanding it with a match puts group n for the n-th wildcard, converts the case of what is behind a switch and keeps all else as written, if and only if there are conversions for every text that is appended at once and none changes the text in front of it; the expansion is never longer |
| GlobReplace.NineIsTheMost | lib/search/glob.c:115-157 | if no group beyond 9 is named by its number, it does so with all groups if and only if there are at most nine wildcards, and no `\u` or `\l` without `\U` or `\L` in force stands in front of a group or of more characters than it is for, and no `\U` or `\L` behind characters that it would change |
| GlobReplace.InitialOnly | lib/search/regex.c:642-677 | the input: `\u*` gives just the first letter of a name, where the whole name with that letter as a capital is meant |
| GlobReplace.CapitalInitial | doc/man/mc.1.in:2755-2760 | the example of the manual: `\L\u*` makes the first letter of a name a capital and the others small |
| GlobReplace.TenthWildcard | lib/search/glob.c:129-139 | in every replacement what comes of the text up to the tenth wildcard comes first, and then a colon |
| GlobReplace.TenAsterisks | lib/search/glob.c:129-139 | the input: ten asterisks give the first nine groups and a colon |
| GlobGroups.GroupsAreWildcards | lib/search/glob.c:60-73 | the groups of an entire-line match are exactly the fillings of the wildcards that give the matched text |
| GlobGroups.GlobReplacement | lib/search/regex.c:995-1093 | replacing puts the text matched by the n-th pattern wildcard where the n-th replacement wildcard stood, with the conversions of the case switches before it, if and only if there are conversions for every text that is appended at once and none changes the text in front of it, which is so for all matches if the replacement meets the condition of NineIsTheMost |
| TextSearch.NormalTranslateToRegex | lib/search/normal.c:45-81 | the loop puts a backslash before each listed character |
| TextSearch.NormalText | lib/search/normal.c:45-81 | the listed characters are just `*?,{}[]\+.$()^-\|`, and no other character gets a backslash |
| TextSearch.NormalSearch | lib/search/normal.c:45-81 | the text parses, and finds exactly the texts that contain the string |
| TextSearch.ReadQuoted | lib/search/srch-hex.c:92-106 | copies up to the closing quote with backslashes resolved |
| TextSearch.HexTranslateToRegex | lib/search/srch-hex.c:56-128 | the loop gives the text of the whole pattern, or the error with its kind and position |
| RegexLiterals.FindsItselfIff | lib/search/srch-hex.c:92-112 | a text that is an expression finds just the texts that contain it if and only if no character of it means something in an expression |
| TextSearch.HexSearch | lib/search/srch-hex.c:56-128 | every pattern of byte numbers and quoted text is read to its end; if no quoted character means something in a regular expression, it finds exactly the texts that contain the bytes denoted |
| TextSearch.HexErrors | lib/search/srch-hex.c:92-117 | behind every pattern that is well formed so far: what is neither space nor the start of a number or of quoted text is an invalid character there, and a quote that no other quote closes is unmatched there |
| TextSearch.HexNumberErrors | lib/search/srch-hex.c:82-90 | a number of any size behind it, with or without a sign and a prefix, is out of range there if the last 32 bits of what 64 bits make of it are above 255, and its byte otherwise |
| TextSearch.BarePrefix | lib/search/srch-hex.c:82-90 | `0x` without digits is the byte 0 |
| TextSearch.ErrorIsThere | lib/search/srch-hex.c:119-128 | whatever the pattern, the place that an error names is in it, and what stands there is wrong in just that way |
| TextSearch.MinusRange | lib/search/srch-hex.c:82-90 | which negative numbers pass: the last 32 bits of the negative number are at most 255 |
| TextSearch.QuotedIsLiteralIff | lib/search/srch-hex.c:92-112 | quoted text goes into the expression with its backslashes resolved; if that is an expression, it finds just the texts that contain the quoted one if and only if none of its characters means something there |
| TextSearch.QuotedDot | lib/search/srch-hex.c:92-112 | the input: `"a.b"` finds `axb`, which does not contain `a.b` |
| TextSearch.RangeCheck | lib/search/srch-hex.c:82-90 | which numbers pass: one above 255 does if and only if it fits 64 bits and its last 32 bits are at most 255 |
| TextSearch.BigNumberWraps | lib/search/srch-hex.c:82-90 | `100000041` passes for the byte 41 |
| BackgroundSafety.ParentTakesNext | src/task-background.c:190-271 | each read of the parent takes just the next piece of the call and leaves the rest |
| BackgroundSafety.ChildTakesNext | src/task-background.c:439-482 | each read of the child takes just the next piece of the answer; the last completes it |
| BackgroundSafety.StepKeeps | src/task-background.c:185-391 | every step of either process keeps the invariant |
| BackgroundSafety.CallsArriveAsSent | src/task-background.c:128-159 | in every run the routines are invoked with just the blocks and contexts passed, in order, the child gets just their answers with the empty string as NULL, and both pipes are empty between calls |
| BackgroundSafety.NeverBothWait | src/task-background.c:403-483 | while a call is on its way some process can go on: the two never both wait on empty pipes |
| BackgroundSafety.CallsEnd | src/task-background.c:403-483 | each step brings a call nearer to its end, however the processes are scheduled |
| BackgroundSafety.EveryCallReturns | src/task-background.c:403-483 | from every reachable state in which the child rests, every call can be made, and for every answer of its routine there is a run in which just that call is made, invoked and answered so |
| BackgroundProtocol.RequestBytes | src/task-background.c:403-440 | the bytes of a call: the address, the number of blocks, 1 for an integer or 0 for a string, 1 and the context or 0, and each block behind its length |
| BackgroundPipes.TaskList.RegisterTaskRunning | src/task-background.c:86-101 | the task and its channel come first, answers to its descriptor go to it, and no other descriptor is affected |
| BackgroundPipes.TaskList.DestroyTask | src/task-background.c:105-128 | takes out just the newest task with the pid and returns its descriptor; without one, nothing changes |
| BackgroundPipes.TaskList.DeleteSelectChannel | lib/tty/key.c:1414-1422 | takes out just the newest channel for the descriptor; without one, nothing changes |
| BackgroundPipes.TaskList.UnregisterTaskRunning | src/task-background.c:489-494 | takes out the newest task with the pid and the newest channel for the descriptor, which need not be those of one task; a descriptor watched once is not watched any more, and the channels of all others stay, in order |
| BackgroundPipes.TaskList.UnregisterTaskWithPid | src/task-background.c:498-506 | takes out the newest task with the pid and the channel for the descriptor of that task, and no other channel |
| BackgroundPipes.TaskList.FindByDescriptor | src/task-background.c:273-280 | the pipe of the first task that reads from the descriptor |
| BackgroundPipes.ServesTheOwner | src/task-background.c:273-280 | while no newer task uses the descriptor, its calls are answered to the task that registered it |
| BackgroundPipes.ParentCallHeader | src/task-background.c:403-419 | writes routine, count, type, the context flag and the context |
| BackgroundPipes.SendCall | src/task-background.c:430-440 | the header and the blocks are just the bytes of the request |
| BackgroundPipes.ReceiveCall | src/task-background.c:219-271 | from a pipe that starts with a request, just that call is read and just its bytes are taken, its context into the parent's own one; from one that ends within a request, reading fails, and it says whether not even the routine came |
| BackgroundPipes.SendReply | src/task-background.c:335-382 | writes just the bytes of the answer; an empty string goes out as length 0 |
| BackgroundPipes.BackgroundAttention | src/task-background.c:185-391 | the answer of the routine goes to the task of the descriptor and what it leaves in the context stays there; a call that breaks off invokes nothing; at the end of the pipe the task with the pid of the context is taken out and its descriptor is no longer watched, while the channels of all other descriptors stay, and at no other time |
| BackgroundPipes.EndBgProcess | src/filemanager/file.c:2137-2149 | takes out the task with the pid of the context together with its channel, and no channel of another descriptor; the context has the pid 0 afterwards |
| BackgroundPipes.DeadTaskIsTakenOut | src/task-background.c:224-226 | the task of a child that dies before its last call is taken out if and only if none of its calls has sent a context, which leaves the child's own copy of the pid in the parent's |
| BackgroundPipes.ReceiveInteger | src/task-background.c:442-449 | the number, and into the context what the routine left there; the pipe is empty |
| BackgroundPipes.ReceiveString | src/task-background.c:470-483 | the string, NULL for length 0; the pipe is empty |
| BackgroundPipes.ParentVaCall | src/task-background.c:423-449 | a whole call returns the number and context of the routine on what was passed, both processes are left with that context, and both pipes are empty |
| BackgroundPipes.ParentVaCallString | src/task-background.c:453-483 | the same for a string |
| LockName.LockInfo.LockExtractInfo | lib/lock.c:138-171 | the loops over the static buffers leave the owner before the last dot, cut to its buffer, and the number behind it, cut to nine characters |
| LockName.PidOfName | lib/lock.c:87-111 | taking a built name apart gives its owner, and its process number if and only if that is below 10^9; of a longer one the last digit is lost |
| LockName.TakenApart | lib/lock.c:138-171 | what is taken out of any text: at most 254 characters before the last dot, and the number of at most nine characters behind it, up to a colon |
| LockName.NamesDiffer | lib/lock.c:87-111 | two processes never build the same name |
| FileLock.LockDirectory.LockFile | lib/lock.c:199-269 | for one process alone: fails and changes nothing if the path is empty, or the lock cannot be read, or is alive and not grabbed; else the link names the process. Without grabbing, the lock of a process with at most nine digits is taken over if and only if that process is gone |
| FileLock.LockDirectory.UnlockFile | lib/lock.c:278-316 | for one process alone: removes the lock if it names the process or cannot be read, and nothing else; the lock of a process with at most nine digits if and only if that is the process itself |
| FileLock.GivesWayIffGone | lib/lock.c:228-259 | the link that names a user, a host and a process number of at most nine digits gives way without grabbing if and only if no such process is alive; a lock that cannot be read never gives way |
| FileLock.UndisturbedLock | lib/lock.c:199-269 | the system calls of one process, with nobody between them, do just what lock_file does as a whole |
| FileLock.UndisturbedUnlock | lib/lock.c:278-316 | and those of unlock_file likewise |
| FileLock.AdvanceKeeps | lib/lock.c:199-316 | every system call of any process keeps: no stale lock, each holder's link names it, each unlocking process still owns its link |
| FileLock.OneHolder | lib/lock.c:199-316 | in every interleaving without grabbing, with only holders unlocking and no stale lock at the start, a file has at most one holder and its link names it |
| FileLock.SafeIffNoStaleLock | lib/lock.c:225-253 | with two processes or more, all such runs are safe if and only if no lock is stale at the start |
| FileLock.StaleRace | lib/lock.c:225-253 | the run in which two processes remove the same stale lock, the second removing the first one's new lock |
| FileLock.GrabRace | lib/lock.c:233-251 | the run in which a user grabs the lock of a process at work |
| FileLock.StrayUnlockRace | lib/lock.c:298-311 | the run in which a process that holds nothing takes a lock that is gone for a broken one and removes the next |
| Serialize.StringRoundTrip | lib/serialize.c:77-181 | a written string is read back, whatever its characters and whatever follows, and its end is found |
| Serialize.DeserializeIff | lib/serialize.c:131-181 | a text is read from the data if and only if it stands behind the prefix, fewer than 64 characters that atol takes for its length, and the first delimiter |
| Serialize.DeserializeAny | lib/serialize.c:131-181 | of all data with a delimiter: a wrong prefix, a length of 64 characters or more, and a length beyond the data are errors, in this order, and all else is read |
| Serialize.DeserializeNone | lib/serialize.c:136-159 | the errors of empty data and of data without a delimiter |
| Numbers.AtolReads | lib/serialize.c:166-168 | atol on any text: white space, a sign, all digits that follow, as far as a long holds their number |
| Serialize.GoToEnd | lib/serialize.c:77-92 | each string that is read takes two characters or more, so the reader ends on every input |
| Serialize.McSerializeConfig | lib/serialize.c:195-257 | the nested loops write the groups, keys and values in order |
| Serialize.ConfigSample | lib/serialize.c:195-257 | a group is written with g, its keys with p and their values with v |
| Serialize.SerializedAs | lib/serialize.c:108-117 | each as the letter, the length in decimal, a colon and the text |
| Serialize.McDeserializeConfig | lib/serialize.c:274-341 | the loop with its three states gives the configuration, or the error and its position; no data gives an empty configuration |
| Serialize.RoundTrip | lib/serialize.c:195-341 | reading what was written gives the same groups, keys and values in order, if and only if the configuration is not empty and each group has a key |
| Serialize.EmptyGroup | lib/serialize.c:274-341 | an empty last group is lost; any other empty group is an error at the place where the next group starts |
| Serialize.WhereItFails | lib/serialize.c:274-341 | behind written groups, behind the name of a group and behind a key: if what is expected there cannot be read, reading fails with its error and that place, counted from 1 |
| Serialize.EndsAtKey | lib/serialize.c:274-341 | data that end behind a key are no error, and the key is lost; so with EndsAtName for the name of a group |
| Serialize.EndsAtName | lib/serialize.c:274-341 | data that end behind the name of a group are no error, and the group is lost |
| TextLines.ChunksOfConcat | lib/sub-util.c:1152-1152 | pieces of which all but the last end with a newline or fill the buffer are read back as they were written |
| RecordLines.RecordIsOneLine | lib/sub-util.c:1254-1267 | a record is read as one line if and only if its name has no newline and the record has room in the buffer |
| RecordLines.RecordInPieces | lib/sub-util.c:1152-1168 | the first piece of a record has the name, the space and as many of the fields as there is room for; no later piece has a space |
| RecordLines.CutReads | lib/sub-util.c:1170-1207 | fields that are cut off are read as if they were whole if and only if only the newline is missing, or what is missing is not wanted or is a zero |
| PositionStore.ShortNameFits | lib/sub-util.c:1148-1152 | every record has room whose name is no longer than 3921 characters |
| PositionStore.LongNameIsLost | lib/sub-util.c:1148-1168 | the position saved for a name that fills the buffer is never found again |
| FilePosition.ReadRecord | lib/sub-util.c:1170-1207 | a record read as one line gives back line, column, offset and the first ten bookmarks, each at its place; without bookmarks asked for, line and column; a negative offset comes back as the biggest |
| FilePosition.RecordText | lib/sub-util.c:1254-1267 | the form of a record: the name, a space, line, column, offset and bookmarks with semicolons between them, a newline |
| PositionStore.NoRecordIff | lib/sub-util.c:1254-1254 | a save writes no record if and only if the line is 1, the column 0 and there are no bookmarks |
| PositionStore.PositionFile.SaveFilePosition | lib/sub-util.c:1218-1295 | the new text of the file: the new record first, then the old lines of other names up to the limit, in order; without a file, an empty one |
| PositionStore.PositionFile.LoadFilePosition | lib/sub-util.c:1127-1211 | the loop gives what the matching lines make of the defaults, the last one deciding |
| PositionStore.LoadShows | lib/sub-util.c:1127-1295 | a load after a save gives what the first piece of the record shows, also when the buffer cuts it off |
| PositionStore.SaveThenLoad | lib/sub-util.c:1127-1295 | for all files, names and entries: a load gives the saved entry, with its line, column, offset and first ten bookmarks, if and only if there was a file, the name has no newline and the buffer has room for what is wanted of the record, or the entry is what an unknown name gets |
| PositionStore.OthersStay | lib/sub-util.c:1269-1279 | a save of a name without newline that leaves room for a space keeps the records of every other name or drops the oldest of them, none if the other lines are within the limit; if the record has room, the file has at most one line more than the limit |
| PositionStore.KeptAre | lib/sub-util.c:1268-1279 | of the lines of other names the first are copied: as many as the limit says, all if there are fewer, and one where the limit is 0 |
| PositionStore.KeptApartIffNoNewline | lib/sub-util.c:1254-1279 | saving for a name adds no record for another one, in any file, if and only if the name has no newline and leaves room for a space in the buffer |
| PositionStore.NewlineCollides | lib/sub-util.c:1254-1279 | the pair of paths: what is saved for `/x`, newline, `/y` is what a load of `/y` gives, and a load of the name itself gives the defaults |
| PositionRuns.Refines | lib/sub-util.c:1218-1295 | after any run of saves of names without newline that leave room for a space, the file is read as a list of first pieces of records, of distinct names, the most recent first, with the pieces that the buffer cut off between them |
| PositionRuns.RecentIsRecalled | lib/sub-util.c:1127-1295 | after any such run, a load gives what the buffer shows of the record that was last saved for a name, as long as the names saved since and the other pieces of their records are within the limit; and that is the saved entry if and only if the buffer has room for what is wanted of it |
| PositionRuns.OldIsDropped | lib/sub-util.c:1269-1279 | if more have been saved since, each with a record, a load gives the defaults |
| PositionRuns.NamesAlone | lib/sub-util.c:1269-1279 | if all records since have room, only the distinct names count against the limit |
| History.ListAppendUnique | lib/sub-util.c:1087-1119 | every earlier entry with the text goes, the others keep their order, and the text comes last |
| History.KeepLastInOrder | lib/sub-util.c:1087-1119 | what a run of appends keeps: the same texts, each once, in the order of their last occurrences |
| History.McConfigHistorySave | lib/mcconfig/mcconf-history.c:163-217 | the group of the history is replaced by the last entries, numbered from 0, NULL entries skipped; nothing changes for an empty name or list |
| History.McConfigHistoryLoad | lib/mcconfig/mcconf-history.c:100-156 | the loop appends the values of the keys 0, 1 and so on; a missing key is set to the empty text |
| History.LoadsByNumber | lib/mcconfig/mcconf-history.c:100-156 | any group, whoever wrote it, with n keys: the texts under 0 to n - 1 in this order, each where it occurs last, an empty one for a number that is no key; only these numbers become keys, and nothing else changes |
| History.WindowIs | lib/mcconfig/mcconf-history.c:172-178 | the entries that are saved are the last ones of the list: as many as are recorded, all of a shorter list, and one at least |
| History.SaveThenLoad | lib/mcconfig/mcconf-history.c:100-217 | loading gives the last entries saved, each text only where it occurs last, and leaves the configuration as it is |
| History.OthersUntouched | lib/mcconfig/mcconf-history.c:180-181 | no other group is changed by a save |
| History.SaveAgain | lib/mcconfig/mcconf-history.c:100-217 | saving what was loaded and loading again gives the same |
| NameQuote.NameQuote | lib/sub-util.c:252-307 | the loop gives the quoted text |
| NameQuote.LeftBare | lib/sub-util.c:266-292 | of the characters that are special to a shell of POSIX.1-2017 just `=` and `%` are left unquoted everywhere, and `#` and `~` behind the beginning; of the others just `!`, `]`, braces and the carriage return get a backslash |
| NameQuote.QuotedIsName | lib/sub-util.c:246-251 | a POSIX shell takes the quoted text for the name, or for `./` and the name if that starts with `-`, with no special character unquoted, if and only if the name is not empty and has no newline, and is no assignment or reserved word in the place of a command and no `%` word in that of a job |
| NameQuote.PercentsOfQuoted | lib/sub-util.c:246-267 | with percent signs doubled, undoing that gives the plain quoting |
| SizeTrunc.ToThousands | lib/sub-util.c:477-488 | the loop with 125 and 128, in 64 bits |
| SizeTrunc.RescaleExact | lib/sub-util.c:472-488 | one turn is the multiplication by 1024/1000, rounded down, in 64 bits, for all sizes |
| SizeTrunc.SizeTruncLen | lib/sub-util.c:416-517 | for all units: prints the first number that fits with its suffix, or leaves the buffer alone if the units run out first |
| SizeTrunc.SizeIsShown | lib/sub-util.c:406-415 | for bytes and kilobytes without overflow the number divided is the size in its units, a text is always written, nothing of it is cut off, its number is within (Base/2)(Base^k-1)/(Base-1) of the size, its letter is that of the power of the base by which it was divided, and no earlier unit would have room |
| SizeTrunc.NearIffNoOverflow | lib/sub-util.c:511-515 | the number is that near to the size if and only if the size in its units, rounded, fits 64 bits; sizes that rescaling wraps round included |
| SizeTrunc.BiggestVanish | lib/sub-util.c:511-515 | the sizes that overflow are printed as nothing but the letter of the unit, behind a tilde if there is room for one |
| CaseOrder.UptoTransitive | lib/keybind.c:408-415 | the comparison is transitive; with totality and antisymmetry an order of names up to the case of letters |
| CaseOrder.SameNameIff | lib/keybind.c:408-415 | two names are equal if and only if they have the same characters up to A to Z against a to z |
| CaseOrder.FirstDifference | lib/keybind.c:408-415 | which name comes first: the one that ends where the other goes on, or the one with the lower character at the first difference, a capital counting as its small letter |
| Keybind.QSort | lib/keybind.c:425-431 | sorts the names in place; a permutation, and the sentinel behind them is not touched |
| Keybind.BSearch | lib/keybind.c:476-481 | finds an entry of that name in whatever case; in a sorted array, not finding one means there is none |
| Keybind.Registry.AddNewAction | lib/keybind.c:457-533 | keeps the array sorted, free of duplicates and closed by its sentinel; a known name changes nothing and gives 0, a new one is added and gives 1, as is an empty one without a look |
| Keybind.Registry.SortCommandNames | lib/keybind.c:417-432 | sets up and sorts the array once, with the same entries |
| Keybind.Registry.LookupAction | lib/keybind.c:550-562 | the id of the entry that has the name in whatever case, CK_IgnoreKey, which is 0, if there is none |
| Keybind.FirstRegistrationStays | lib/keybind.c:483-491 | after any run of registrations a name has the id it had before, or else that of its first registration in whatever case |
| Keybind.LoadKeymapFromSection | src/setup.c:787-823 | the loop over the keys of a section leaves the registry with just the registrations of the unknown names, and gives each key its action |
| Keybind.LoadedKeys | src/setup.c:798-810 | after a section each key has the action that any later search finds for it; known names keep their ids, all others get ids that are free, positive, and differ as the names do up to case |
| Keybind.LoadedWithAnyIds | src/setup.c:798-815 | whatever ids the known names have: they keep them, and a key has the id that it ends up with as its action, or 0 if that id is not positive |
| OwnerCache.IntCache.CacheMatch | lib/utilunix.c:127-136 | the string of the first slot with the index |
| OwnerCache.IntCache.CacheAdd | lib/utilunix.c:140-147 | writes the slot and moves on round the ring |
| OwnerCache.IntCache.GetOwner | lib/utilunix.c:286-310 | asks the cache, then the database, and falls back to the number |
| OwnerCache.QueryIsRight | lib/utilunix.c:286-310 | every query keeps the cache good (right names, no index twice, zero slots last) and gives the database name of a known user |
| OwnerCache.EveryAnswerIsRight | lib/utilunix.c:286-310 | so do all queries of every sequence, also when the ring goes round and when user 0 meets zero slots |
| OwnerCache.NumberShownInFull | lib/utilunix.c:302-308 | the number of an unknown user is shown in full if and only if it is below 10^9 |
| OwnerCache.NumberShown | lib/utilunix.c:302-308 | of ten digits the first nine are shown, and of a number that an int takes for negative the sign and at most eight digits |
| HelpHistory.HelpViewer.constructor | src/help.c:1147-1155 | every slot gets the first place |
| HelpHistory.HelpViewer.HelpHelp | src/help.c:606-623 | stores the place, also when the node is not found |
| HelpHistory.HelpViewer.HelpIndex | src/help.c:627-646 | stores the place when the node is found |
| HelpHistory.HelpViewer.HelpBack | src/help.c:650-661 | takes up the stored page and link and steps back round the ring |
| HelpHistory.HelpViewer.HelpSelectLink | src/help.c:749-778 | stores the place and follows the selected link, if there is one |
| HelpHistory.HelpViewer.ClickLink | src/help.c:1029-1039 | stores the page and the clicked link and follows it |
| HelpHistory.RingIsStack | src/help.c:606-661 | in every nested run whose Backs ask for entries that a ring of twenty still has, each Back restores the page and the link of its matching follow |
| HelpHistory.TwentyAreKept | src/help.c:76-112 | a nested run of depth twenty or less behaves as with an unbounded stack |
| HelpHistory.NthBack | src/help.c:650-661 | from a full ring the n-th Back in a row restores the entry (n-1) mod 20 below the top: right for n up to 20, and beyond that if and only if that entry equals the one n deep |
| HelpHistory.FollowedNothing | src/help.c:650-661 | in a viewer that has stored no place every Back shows the place where the viewer began |
| HelpHistory.BackFromTheFirst | src/help.c:650-661 | when all entries have been gone back from and there were never more than m, 20 - m more Backs show the place where the viewer began |

## Left out

Members whose contracts say less than the code does:

- Canonicalize.CustomCanonicalizePathname: requires a plain path, because what `://` means depends on the virtual file systems that are set up and what `#enc:` means on the list of code pages; of the flags only the two combinations that the program uses are modelled.
- BuildFilename.McBuildFilenamev: requires plain elements that stay plain when they are joined, for the same reason.
- RelativePath.RelativeLeadsIff: the links that resolve_symlinks follows are not modelled; the two paths are what it has made of them.
- GlobMeaning.EntireLineSearch: braces do not nest and are balanced, and the regular expression is case sensitive; what unbalanced text means is left to the regular expression library.
- GlobGroups.GroupsAreWildcards: says which groups a match can have, not which of several matches the engine prefers.
- GlobGroups.GlobReplacement: of more than nine wildcards NineIsTheMost and TenthWildcard say what comes out; an escaped `x` or brace that starts no number is left to ReplaceEscapes.EscapedAsWritten.
- ReplaceMeaning.AllAsMeantIff: of a `\u`, `\l` or `\E` directly behind an ordinary character ReplaceMeaning.SwitchIsRight says when it is right between two texts; with groups around them it is not decided.
- RegexReplace.PrepareReplaceStr: nothing is said of what follows an escape that runs over the end of the text, nor of a group number beyond 31 bits, and the expansion says so where it stops. Letters are those of ASCII, and a character is one byte. That the search has failed before, where the text is copied, is not modelled.
- TextSearch.QuotedIsLiteralIff: of quoted text that is no expression of the modelled fragment (with a question mark, a bracket or a brace that means something, say) nothing more is said than that it is not literal.
- GlobLiterals.LiteralWorksIffProper: of the letters and digits behind a backslash it decides n, t, r, f, a, e, d, w, s, D, W, S and 0, with the classes over ASCII; the others need more of the regular expression library than is modelled.
- BackgroundPipes.ReceiveCall: reads are complete or fail, and a call has at most four arguments; the program writes beyond its array for more. An argument of negative size counts as a failed read.
- BackgroundPipes.BackgroundAttention: the routines are a function from calls to answers and leave the list of tasks alone; EndBgProcess, the one that does not, stands by itself. Waiting for the child and killing it are not modelled.
- BackgroundSafety.NeverBothWait: both processes stay alive and every invoked routine returns; end of file, signals and the killing of a misbehaving child are left out.
- FileLock.OneHolder: the processes stay alive during the run, have names that fit the buffer and numbers below 10^9, and are all on one host: the program asks the local kernel about a number that may have been written on another.
- FileLock.LockDirectory.LockFile: a lock is keyed by the file and not by the name that is built from it, and a negative number in a link, which the system would take for a process group, counts as a process that is gone.
- Serialize.RoundTrip: group names, and the keys of a group, are distinct, as in every key file.
- PositionStore.PositionFile.SaveFilePosition: failing to open or write a file, a left-over copy of the file, and NULs in it are not modelled.
- PositionRuns.Refines: whole runs are of names without newline that leave room for a space; a save of another name may write records of other names (PositionStore.KeptApartIffNoNewline).
- History.SaveThenLoad: the display is UTF-8, so that texts are stored as they are.
- SizeTrunc.SizeIsShown: units above kilobytes are covered by the method alone, where the units may run out; uintmax_t has eight bytes.
- Keybind.Registry.AddNewAction: before the registry is set up and sorted the program searches an unsorted table, and of that search nothing is promised.
- Keybind.LoadKeymapFromSection: keys without values, which the loop passes over, are taken out before; binding the values to the action is not modelled.
- Keybind.QSort: the C library's qsort is any sort; here it is an insertion sort.
- OwnerCache.IntCache.GetOwner: the user database is fixed; the cache of groups, which has the same code with a smaller ring, is not modelled.
- NameQuote.QuotedIsName: aliases, which a shell looks up in the place of a command, are not modelled.
- HelpHistory.RingIsStack: what scrolling, redrawing and selecting make of the current place is a parameter.

Parts of the repository that are not modelled:

- The real file system, processes, signals and terminals, except as the parameters and values above.
- GKeyFile, GLib lists and strings, charset conversion, and the regular expression engine beyond the fragment that is emitted.
- The search dispatch, and regular expression searches that the user writes.
- Stale locks beyond the race above, and the dialog that asks about a lock.
- The help viewer's text search and its drawing.
- Widgets, screens, skins, menus, the editor, the viewer, the diff viewer, virtual file systems and argument handling: user interface and plumbing.
- Event and hook registries, option tables and path migration: they would add only easy members.
