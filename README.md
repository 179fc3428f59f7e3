# URL canonicalization, modelled in Dafny

This project models `Canonicalization.GetCanonicalizedUrl` from the
Rfc2396Url library. The library turns an arbitrary URL string into a
canonical text form, following the "canonical hostname" recipe of
Mozilla's phishing protection server spec. The pipeline has four stages:

- **Splitter** (`GetHostName` / `GetRemainder`). One partial match,
  anchored at the start, of the URI-reference pattern of Appendix B of
  RFC 2396. The path group is narrowed to `[a-zA-Z0-9-]` and a leading
  `(?=[^&])` lookahead is added. The host is group 2 (authority) and the
  remainder is group 3 (path).
- **Host passes**, in this order: `RemoveSpecialCharacters`,
  `ReplaceConsecutiveDots`, `NormalizeIPAddress` (the identity),
  `EscapeSpecialChars`, then `ToLower`.
- **Remainder passes**: `ResolveSequences` and then
  `RemoveFragmentIdentifier`. `ResolveSequences` collapses `/./` once,
  splits the text into `/…` segments, and drops every segment that is, or
  is followed by, `/..`. It does this in a single pass with one segment of
  lookahead.
- **Combiner**: the host followed by the remainder, with `/` added to the
  host when the remainder is empty.

Module layout:

| file | module | contents |
|---|---|---|
| `wrappers.dfy` | `Wrappers` | `Option` and `Result` |
| `text.dfy` | `Text` | subsequences, character filters, greedy character runs |
| `splitter.dfy` | `Splitter` | the regex match that gives host and remainder |
| `host.dfy` | `HostNormalizer` | the five host passes |
| `remainder.dfy` | `RemainderNormalizer` | `ResolveSequences`, a method with its loop, proved against `Resolved`; also `RemoveFragmentIdentifier` |
| `canonicalization.dfy` | `Canonicalization` | `GetCanonicalizedUrl`, proved against `CanonicalizedUrl`, and the properties of the whole pipeline |
| `samples.dfy` | `Samples` | the repository's sample URL and the double-ascent case, worked through the model |

Each regex `Replace` or `Matches` is written as a hand-made scanner with
the .NET semantics for that one pattern: leftmost, greedy and
non-overlapping. Every other pass and stage is a function over `string`.
`ResolveSequences` is the exception: it builds `validComponents` in a loop
with a lookahead to the next match. It is therefore a method with a `for`
loop whose invariant ties the accumulator to `Kept`.
`GetCanonicalizedUrl` is a method that reassigns `hostName` and
`remainder` through the same passes, in the source's order.

The splitter's path class contains no `/`, `.` or `#`. As a result the
remainder passes never change the remainder inside the full pipeline, and
a URL with an authority always canonicalizes to its canonical host
followed by `/` (`Canonicalization.CanonicalizedUrlWithAuthority`). The
model keeps this behaviour because it is what the pattern at line 58
does. The remainder passes are also proved on arbitrary input, which is
how the repository's sample path is worked through
(`Samples.ResolvedSample`).

## Model

| member | source | states |
|---|---|---|
| `Canonicalization.GetCanonicalizedUrl` | Rfc2396Url/Rfc2396Url/Canonicalization.cs:26-47 | a null URL gives the `NullUrl` failure before any processing; otherwise the result is the host passes and remainder passes applied in the source's order and combined, i.e. `CanonicalizedUrl` |
| `Canonicalization.CanonicalizedUrl` | Rfc2396Url/Rfc2396Url/Canonicalization.cs:31-46 | the canonical form of a non-null URL: the host passes on group 2, the remainder passes on group 3, and the combination with `/` for an empty remainder; its properties are the `CanonicalizedUrl…` lemmas below |
| `Canonicalization.CanonicalizedUrlShape` | Rfc2396Url/Rfc2396Url/Canonicalization.cs:31-46 | the canonical URL is the canonical host followed by the split remainder unchanged, or by `/` when that remainder is empty: both remainder passes are the identity on what the splitter yields |
| `Canonicalization.CanonicalizedUrlChars` | Rfc2396Url/Rfc2396Url/Canonicalization.cs:34-46 | the result is non-empty and made of `a-z`, `0-9`, `.`, `-`, path characters and `/`; a `/` appears only as the last character, and it is there exactly when the remainder is empty |
| `Canonicalization.CanonicalizedUrlWithAuthority` | Rfc2396Url/Rfc2396Url/Canonicalization.cs:43-46 | a URL whose match has an authority canonicalizes to its canonical host followed by `/` |
| `Canonicalization.CanonicalizedUrlOfNoMatch` | Rfc2396Url/Rfc2396Url/Canonicalization.cs:58 | an empty URL, or one starting with `&`, fails the lookahead and canonicalizes to `/` |
| `Splitter.HierarchicalStart` | Rfc2396Url/Rfc2396Url/Canonicalization.cs:58 | when the scheme group is taken, it is a non-empty run of `[^:/?#]` followed by `:`, at the start of the URL |
| `Splitter.NoScheme` | Rfc2396Url/Rfc2396Url/Canonicalization.cs:58 | when no scheme group is taken, every `:` after the first character follows some character outside `[^:/?#]` |
| `Splitter.HasAuthority` | Rfc2396Url/Rfc2396Url/Canonicalization.cs:58 | the optional `(?://…)` group is taken exactly when `//` stands right after the scheme group (or at the start when there is none) |
| `Splitter.HostGroup` | Rfc2396Url/Rfc2396Url/Canonicalization.cs:54-62 | group 2, the authority: the text after `//` up to the first `/`, `?` or `#`, so it holds none of them; empty when the match has no `//` |
| `Splitter.PathGroup` | Rfc2396Url/Rfc2396Url/Canonicalization.cs:70-78 | group 3, the path: the greedy run of `[a-zA-Z0-9-]` right after the authority (or after the scheme when there is none), so it holds only those characters |
| `Splitter.Split` | Rfc2396Url/Rfc2396Url/Canonicalization.cs:54-79 | the host never contains `/`, `?` or `#`; the remainder contains only `[a-zA-Z0-9-]`; an empty URL or a leading `&` gives an empty host and an empty remainder |
| `Splitter.SplitLayout` | Rfc2396Url/Rfc2396Url/Canonicalization.cs:58 | a successful match consumes `[scheme ":"] ["//" host] remainder` from the front of the URL; without `//` the host is empty; host and remainder are both greedy (the next character could not extend them) |
| `Splitter.SplitWithAuthority` | Rfc2396Url/Rfc2396Url/Canonicalization.cs:74-78 | when the match has an authority, the remainder group is empty |
| `Splitter.SplitOfAuthorityUrl` | Rfc2396Url/Rfc2396Url/Canonicalization.cs:58-62 | `scheme "://" host` followed by `/`, `?`, `#` or the end splits into exactly that host and an empty remainder |
| `HostNormalizer.TrimLeadingDots` | Rfc2396Url/Rfc2396Url/Canonicalization.cs:94 | the result is a suffix of the input that does not start with `.`, and only dots were cut |
| `HostNormalizer.TrimTrailingDots` | Rfc2396Url/Rfc2396Url/Canonicalization.cs:94 | the result is a prefix of the input that does not end with `.`, and only dots were cut |
| `HostNormalizer.TrimDotsKeepsNonDots` | Rfc2396Url/Rfc2396Url/Canonicalization.cs:94-96 | trimming the two dot runs leaves every other character, in order |
| `HostNormalizer.RemoveSpecialCharacters` | Rfc2396Url/Rfc2396Url/Canonicalization.cs:86-99 | the result has no character in U+0000-U+001F or U+007F-U+00FF, and does not start or end with `.` |
| `HostNormalizer.RemoveSpecialCharactersDeletesOnly` | Rfc2396Url/Rfc2396Url/Canonicalization.cs:90-96 | the result is a subsequence of the host; apart from dots it is exactly the host with its special characters deleted |
| `HostNormalizer.RemoveSpecialCharactersIdempotent` | Rfc2396Url/Rfc2396Url/Canonicalization.cs:86-99 | applying the pass twice gives the same as applying it once |
| `HostNormalizer.RemoveSpecialCharactersKeepsClean` | Rfc2396Url/Rfc2396Url/Canonicalization.cs:90-96 | a host without special characters and without edge dots passes unchanged |
| `HostNormalizer.ReplaceConsecutiveDots` | Rfc2396Url/Rfc2396Url/Canonicalization.cs:106-115 | the result contains no `..`, and it starts (ends) with `.` exactly when the host does |
| `HostNormalizer.ReplaceConsecutiveDotsRun` | Rfc2396Url/Rfc2396Url/Canonicalization.cs:110-112 | a maximal run of dots, of any length, between text that does not continue it becomes exactly one `.`, and the text on either side is treated as if alone |
| `HostNormalizer.ReplaceConsecutiveDotsDeletesDots` | Rfc2396Url/Rfc2396Url/Canonicalization.cs:110-112 | the result is a subsequence of the host, and the non-dot characters are unchanged and in order |
| `HostNormalizer.ReplaceConsecutiveDotsKeepsClean` | Rfc2396Url/Rfc2396Url/Canonicalization.cs:110-112 | a host without `..` passes unchanged |
| `HostNormalizer.ReplaceConsecutiveDotsIdempotent` | Rfc2396Url/Rfc2396Url/Canonicalization.cs:106-115 | applying the pass twice gives the same as applying it once |
| `HostNormalizer.NormalizeIPAddress` | Rfc2396Url/Rfc2396Url/Canonicalization.cs:122-125 | the pass returns its input |
| `HostNormalizer.EscapeSpecialChars` | Rfc2396Url/Rfc2396Url/Canonicalization.cs:132-142 | only `[0-9A-Za-z.-]` remain; the result is a subsequence of the host; every accepted character remains as often as it occurred; a host made of accepted characters is unchanged |
| `HostNormalizer.EscapeSpecialCharsDeletes` | Rfc2396Url/Rfc2396Url/Canonicalization.cs:136-139 | one rejected character between two accepted stretches is deleted and its neighbours are joined |
| `HostNormalizer.LowerChar` | Rfc2396Url/Rfc2396Url/Canonicalization.cs:38 | `A-Z` maps to `a-z` by adding 32; every other character is unchanged; the result is never upper case |
| `HostNormalizer.ToLower` | Rfc2396Url/Rfc2396Url/Canonicalization.cs:38 | same length, lowered character by character |
| `HostNormalizer.ToLowerAppend` | Rfc2396Url/Rfc2396Url/Canonicalization.cs:38 | lower-casing a concatenation lowers each part |
| `HostNormalizer.ToLowerKeepsCanonical` | Rfc2396Url/Rfc2396Url/Canonicalization.cs:38 | lower-casing leaves a string made of `[a-z0-9.-]` alone |
| `HostNormalizer.NormalizeHost` | Rfc2396Url/Rfc2396Url/Canonicalization.cs:34-38 | the host passes in the source's order; the final host contains only `a-z`, `0-9`, `.` and `-` |
| `HostNormalizer.NormalizeHostDeletesOnly` | Rfc2396Url/Rfc2396Url/Canonicalization.cs:34-38 | the passes only delete characters or lower-case them: the final host is the lower-cased form of a subsequence of the host |
| `HostNormalizer.DotPassesClean` | Rfc2396Url/Rfc2396Url/Canonicalization.cs:34-35 | after the two dot passes the host has no edge dots, no `..` and no special characters |
| `HostNormalizer.NormalizeHostDeletesStray` | Rfc2396Url/Rfc2396Url/Canonicalization.cs:34-38 | when a host without edge dots and without `..` has exactly one character outside `[0-9A-Za-z.-]`, and that character is not a special character, the final host is the lower-cased host with that one character deleted: the dot passes run before it is removed |
| `HostNormalizer.NormalizeHostDeletesStrayLower` | Rfc2396Url/Rfc2396Url/Canonicalization.cs:34-38 | the same for a host that is otherwise already canonical: exactly the stray character goes |
| `HostNormalizer.NormalizeHostCanJoinDots` | Rfc2396Url/Rfc2396Url/Canonicalization.cs:136 | `a.$.b` becomes `a..b`: the final host can hold a double dot |
| `HostNormalizer.NormalizeHostCanLeaveEdgeDot` | Rfc2396Url/Rfc2396Url/Canonicalization.cs:136 | `$.a` becomes `.a`: the final host can start with a dot |
| `RemainderNormalizer.DotSegmentAt` | Rfc2396Url/Rfc2396Url/Canonicalization.cs:153-155 | the pattern `(/\./)+` matches exactly when some position holds `/./` |
| `RemainderNormalizer.SkipDotSegments` | Rfc2396Url/Rfc2396Url/Canonicalization.cs:153 | the greedy `+` leaves a suffix of the text that does not start with another `/./` |
| `RemainderNormalizer.SkipDotSegmentsRemovesCopies` | Rfc2396Url/Rfc2396Url/Canonicalization.cs:153 | what the greedy `+` consumes is some number of back-to-back copies of `/./` and nothing else |
| `RemainderNormalizer.SkipDotSegmentsOf` | Rfc2396Url/Rfc2396Url/Canonicalization.cs:153 | in front of text that does not start with `/./`, the greedy `+` consumes all of the copies, however many there are |
| `RemainderNormalizer.DotSegmentCountOf` | Rfc2396Url/Rfc2396Url/Canonicalization.cs:153 | in front of such text, the greedy `+` consumes exactly as many copies as there are |
| `RemainderNormalizer.Collapse` | Rfc2396Url/Rfc2396Url/Canonicalization.cs:153-156 | the replacement of every match of `(/\./)+` by `/`, scanning left to right; it never makes the text longer; with `CollapseCopies` and `CollapseDotSegmentRun`, text where no match starts is copied and each run of `/./` becomes one `/` |
| `RemainderNormalizer.CollapseDeletesOnly` | Rfc2396Url/Rfc2396Url/Canonicalization.cs:156 | the replacement only deletes characters: its result is a subsequence of the input |
| `RemainderNormalizer.CollapseChangesIff` | Rfc2396Url/Rfc2396Url/Canonicalization.cs:155-156 | the replacement changes the text exactly when the pattern matches, and then makes it shorter |
| `RemainderNormalizer.CollapseAppend` | Rfc2396Url/Rfc2396Url/Canonicalization.cs:156 | a prefix with no `/./` that cannot start a match (not ending in `/` or `/.`) is copied as it is |
| `RemainderNormalizer.CollapseCopies` | Rfc2396Url/Rfc2396Url/Canonicalization.cs:156 | a prefix at none of whose positions `/./` starts, read on into what follows, is copied unchanged; in particular a `/` in front of `/./` stays |
| `RemainderNormalizer.CollapseDotSegment` | Rfc2396Url/Rfc2396Url/Canonicalization.cs:156 | a leading `/./` becomes `/` and the scan continues after it |
| `RemainderNormalizer.CollapseDotSegmentRun` | Rfc2396Url/Rfc2396Url/Canonicalization.cs:153-156 | one or more back-to-back `/./` in front of text that does not start another become a single `/` |
| `RemainderNormalizer.CollapseTwoDotSegments` | Rfc2396Url/Rfc2396Url/Canonicalization.cs:153-156 | `/./` `/./` followed by such text becomes `/` followed by the collapsed text |
| `RemainderNormalizer.CollapseIsSinglePass` | Rfc2396Url/Rfc2396Url/Canonicalization.cs:153-156 | `/././` becomes `/./`: the `/` a replacement leaves is not examined again |
| `RemainderNormalizer.Segments` | Rfc2396Url/Rfc2396Url/Canonicalization.cs:158-164 | every match is `/` followed by one or more of `[0-9A-Za-z().-]`; text without `/` has no match; with `SegmentsOfJoin` and `SegmentsSkipNoMatch`, each match is the longest one and text that starts no match is stepped over |
| `RemainderNormalizer.SegmentsDeleteOnly` | Rfc2396Url/Rfc2396Url/Canonicalization.cs:164-174 | the joined matches are a subsequence of the scanned text: the text between matches is discarded |
| `RemainderNormalizer.SegmentsSkipText` | Rfc2396Url/Rfc2396Url/Canonicalization.cs:164 | text holding no `/` starts no match: the scan over that text followed by more text finds exactly the matches of the rest |
| `RemainderNormalizer.SegmentsSkipNoMatch` | Rfc2396Url/Rfc2396Url/Canonicalization.cs:164 | text in which every `/` is followed by a character outside the class, or by nothing, starts no match: the scan steps over it, `/` included, and finds exactly the matches of the rest |
| `RemainderNormalizer.Join` | Rfc2396Url/Rfc2396Url/Canonicalization.cs:174 | `string.Join("", …)`: the components concatenated in order; its properties are `JoinAppend`, `JoinSubsequence`, `SegmentsOfJoin` and `JoinedSegmentsShape` |
| `RemainderNormalizer.JoinSubsequence` | Rfc2396Url/Rfc2396Url/Canonicalization.cs:174 | joining a subsequence of the components gives a subsequence of the joined text |
| `RemainderNormalizer.JoinAppend` | Rfc2396Url/Rfc2396Url/Canonicalization.cs:174 | joining two lists of components is joining each and concatenating |
| `RemainderNormalizer.SegmentsOfJoin` | Rfc2396Url/Rfc2396Url/Canonicalization.cs:158-174 | scanning joined matches, followed by text that cannot extend the last one, gives the same matches back and then the matches of that text |
| `RemainderNormalizer.JoinedSegmentsShape` | Rfc2396Url/Rfc2396Url/Canonicalization.cs:174 | joined matches contain no `#` and no `//`, and are empty or start with `/` and do not end with `/` |
| `RemainderNormalizer.JoinChars` | Rfc2396Url/Rfc2396Url/Canonicalization.cs:174 | joined matches hold only `/` and `[0-9A-Za-z().-]` |
| `RemainderNormalizer.Kept` | Rfc2396Url/Rfc2396Url/Canonicalization.cs:166-172 | no collected component is `/..` and each is one of the matches; with no `/..` among the matches all of them are collected |
| `RemainderNormalizer.KeepAt` | Rfc2396Url/Rfc2396Url/Canonicalization.cs:168-170 | the test of line 170: a match is kept unless it or the match after it (empty after the last match) is exactly `/..`; its consequences are in `Kept`, `KeptMembership` and `KeptLastIff` |
| `RemainderNormalizer.KeptDeletesOnly` | Rfc2396Url/Rfc2396Url/Canonicalization.cs:166-172 | the collected components are a subsequence of the matches: order is kept and nothing is invented |
| `RemainderNormalizer.KeptMembership` | Rfc2396Url/Rfc2396Url/Canonicalization.cs:168-171 | a component is collected exactly when some match with that value is not `/..` and is not followed by `/..` |
| `RemainderNormalizer.KeptLastIff` | Rfc2396Url/Rfc2396Url/Canonicalization.cs:168-171 | the last match is collected exactly when it is not `/..` |
| `RemainderNormalizer.KeptAllIff` | Rfc2396Url/Rfc2396Url/Canonicalization.cs:166-172 | all matches are collected exactly when none is `/..` |
| `RemainderNormalizer.ResolveSequences` | Rfc2396Url/Rfc2396Url/Canonicalization.cs:149-178 | the loop collects exactly the components of `Kept` and joins them, after the collapse; with no match the collapsed text is returned |
| `RemainderNormalizer.Resolved` | Rfc2396Url/Rfc2396Url/Canonicalization.cs:149-178 | the whole of the method as a function of its input; every step only deletes characters, so the result is a subsequence of the input |
| `RemainderNormalizer.ResolvedWithoutSlash` | Rfc2396Url/Rfc2396Url/Canonicalization.cs:153-177 | text without `/` passes unchanged |
| `RemainderNormalizer.ResolvedShape` | Rfc2396Url/Rfc2396Url/Canonicalization.cs:160-175 | once a match exists, the result is the join of the kept matches and scanning it again gives exactly those matches; so it holds only `/` and `[0-9A-Za-z().-]`, has no `#`, no `//`, no trailing `/`, and none of its own matches is `/..` |
| `RemainderNormalizer.IndexOf` | Rfc2396Url/Rfc2396Url/Canonicalization.cs:187 | -1 exactly when the character is absent; otherwise the position of its first occurrence |
| `RemainderNormalizer.RemoveFragmentIdentifier` | Rfc2396Url/Rfc2396Url/Canonicalization.cs:185-193 | the result is a prefix with no `#`; the input is unchanged when it has no `#`, and otherwise is cut exactly at the first `#` |
| `RemainderNormalizer.RemoveFragmentIdentifierIdempotent` | Rfc2396Url/Rfc2396Url/Canonicalization.cs:185-193 | applying the pass twice gives the same as applying it once |
| `Samples.ResolvedSample` | Rfc2396Url/Test/Program.cs:12 | the sample path `/1/gholi/./3/test/keyvan/../nayyeri.html#something` resolves to `/1/gholi/3/test/nayyeri.html` |
| `Samples.ResolvedDoubleAscent` | Rfc2396Url/Rfc2396Url/Canonicalization.cs:166-174 | `/a/b/../../c` resolves to `/a/c`, not `/c`: one pass with one match of lookahead |
| `Samples.SlashBeforeDotSegment` | Rfc2396Url/Rfc2396Url/Canonicalization.cs:153-156 | `//./x` collapses to `//x`: the first `/` is not part of the match |
| `Samples.EmptyStepSkipped` | Rfc2396Url/Rfc2396Url/Canonicalization.cs:158-164 | `/a//b` has the two matches `/a` and `/b`: the `/` that starts no match is stepped over |
| `Samples.ResolvedDropsNonMatch` | Rfc2396Url/Rfc2396Url/Canonicalization.cs:158-174 | `/a_b` resolves to `/a`: its one match is `/a`, and the text after it is not part of the result |
| `Samples.CanonicalizedSampleUrl` | Rfc2396Url/Test/Program.cs:12 | the sample URL `http://One.2.nayyeri$.net/1/gholi/./3/test/keyvan/../nayyeri.html#something` canonicalizes to `one.2.nayyeri.net/` |

## Left out

- Culture-sensitive `ToLower` (line 38) is modelled as ASCII lower-casing. By the time it runs, `EscapeSpecialChars` has left only `[0-9A-Za-z.-]`, so only a culture with its own casing rules (such as the Turkish `I`) would differ.
- Strings are sequences of Dafny `char`, not of UTF-16 code units. Characters outside the Basic Multilingual Plane are one element here and two in .NET. Every character class involved lies inside the BMP, so the passes treat such characters alike either way.
- `IndexOf("#")` at line 187 is culture-sensitive in .NET. It is modelled as an ordinal search for `#`.
- The .NET regex engine in general, and building a new `Regex` object on every call, are not modelled. Each pattern is a hand-written scanner for that pattern alone.
- The `IsMatch` guards at lines 91, 95, 111 and 138 are not modelled as separate steps: `Replace` with no match returns its input. The two guards of `ResolveSequences` are modelled. The one at line 155 is a branch of the method, and `CollapseChangesIff` shows that skipping the replacement there gives the same text. The one at line 160 decides whether the result is the joined matches or the unchanged text.
- The query and fragment groups of the split pattern are matched but never read, so they are not modelled.
- The `ArgumentNullException` (line 29) is modelled as the `NullUrl` failure of a `Result`. The exception's type and message are not modelled.
- `RFC2396Url.cs` stores the string and calls `GetCanonicalizedUrl` (lines 15-28). It has no logic of its own and is not part of this model.
- `Program.cs` only sets the console title, prints and waits for input; this I/O is not modelled. Only its sample URL (line 12) is used, in `Samples`.
- The canonical host is not proved free of edge dots or double dots, even though the recipe cited at line 1 suggests it would be. `EscapeSpecialChars` runs after the dot passes and can leave such dots, as `HostNormalizer.NormalizeHostCanJoinDots` and `HostNormalizer.NormalizeHostCanLeaveEdgeDot` show.
- The segment class at line 158 also accepts `(` and `)`, because the parentheses are literal inside the brackets. The model follows the code here, not a description of segments as letters, digits, `-` and `.` only.
- The `Samples` lemmas write long literals as concatenations of shorter pieces, for example `"http" + "://" + …`. This changes nothing about the strings they denote.
