# Verified model of man-db

This project models the parts of man-db that keep, search and clean its page index, find pages on
disk, follow links between them, and read and write the small texts they depend on. Each file models
one component. Code that loops or updates state is a Dafny method or class proved against a
specification function; what the code is for is then proved about those functions.

- **Index** (`Record`, `References`, `Index`, `DbStore`, `StoreRefinement`, `DbDelete`, `DbLookup`,
  `LooseStores`, `Runs`). The database is a class over `map<string, string>` (`Xdbm.Dbm`). A *view* is a map from
  pages (name, extension) to entries, with the names kept in list form; `Represents` says that a raw
  store is the encoding of a view. The encoding is unique, the pages are determined by the store, and
  every run of `dbstore` and `dbdelete` that breaks nothing is a run on the plain map; a run from an
  index ends in an index if and only if no call breaks it.
- **Order** (`Order`, `CrossTies`). For all sequences of `dbstore` calls from the empty index: every
  order gives the same bytes if and only if no two calls tie across pages and every page has a winner.
- **Walking and purging** (`Xdbm`, `RecordKeys`, `PurgeSpec`, `PurgeRefinement`, `Purge`,
  `Traversal`). The cursor enumerates the snapshot; `purge_missing` is a filter although it deletes under the cursor;
  `dblookup_pattern` sees every page once; `reorganize` copies.
- **Directory search** (`Fnmatch`, `Globbing`, `DirSearch`). Binary search by literal prefix against a
  linear filter, and literal lookup of names full of metacharacters.
- **UTF-8** (`Utf8`). The byte machine against section 4 and section 3 of RFC 3629.
- **Links** (`Paths`, `Ult`, `UltSrc`). Hard-link canonicalisation, `.so` chains, the memo cache.
- **Small texts** (`Shell`, `ShellWords`, `Compression`, `Filenames`, `Manconv`, `Coding`, `CodingShape`,
  `Decimal`). Shell words and quoting, file names, encoding declarations.

A byte is a `char`; a C string is a `string`, which stands for the bytes before the NUL. `tolower`
and `isspace` are those of the C locale. The exit on corrupt data is the value `Corrupt`. The file
system, `fnmatch` brackets, regular expressions and the contents of pages are function-valued
parameters that do not change during a run. Orders, case, times and character sets are
stated twice, by the functions of the code and by relations of their own, and proved to agree. Domain of
the index: names and extensions are not empty and free of tab and NUL, names do not begin with `$`, no
field has a NUL, and none but the whatis text a tab. What is looked up or deleted is not restricted.

Where the code and its comments part, the model follows the code:

- `dbdelete` keeps a list of one page in list form (libdb/db_delete.c:116-137), although its header
  comment (lines 56-58) says it goes back to a single record; views therefore allow lists of one page.
- `dbdelete` on a single record deletes it without comparing name or extension
  (libdb/db_delete.c:80-82): `DbDelete.DeleteAbsentIff`.
- `dbdelete` has no test for special keys either. Asked for `$version$` it deletes the version
  identifier (`DbDelete.VersionDelete`), and asked for the text of a lower-case multi key it deletes the
  record under the list (`DbDelete.MultiKeyDelete`). These are all the exceptions:
  `DbDelete.DeleteExactlyIff`.
- When `dbstore` splits a record and the two pages tie, it answers 1, lists the new page and stores no
  record for it (libdb/db_store.c:413-438): `StoreRefinement.ClashBreaks`. Storing that page again lists
  it twice (`CrossTies.TraceStays`), deleting it is the corrupt-data exit (`Runs.ClashThenDelete`), and
  no later calls make the store an index again (`Runs.RunIndexIff`).
- `dblookup` has no test for special keys (libdb/db_lookup.c:271-371). Every index holds `$version$`
  (libdb/db_ver.c:70-88), and looking that name up is the corrupt-data exit: `DbLookup.VersionLookup`.
  The text of a multi key, given as a page name, returns that record under the text:
  `DbLookup.MultiKeyLookup`. These are all the exceptions: `DbLookup.LookupExactlyIff`.
- A link newer than the real page and that page replace each other (libdb/db_store.c:112-118):
  `Order.NewerLinkOrderMatters`.
- A page stored without a name field takes the spelling of the query (libdb/db_lookup.c:295-297):
  `DbLookup.LookupExactFinds`.
- The literal prefix of a glob does not stop at `[` (src/globbing.c:253), so a closed bracket expression
  in it loses matches: `Globbing.BracketLoses`, `Globbing.CompleteIff`.
- `check_multi_key` compares only the length of the listed name, so it accepts any prefix of the key
  (src/check_mandirs.c:871-908): `References.CheckMultiKeyExact`, `References.CheckMultiKeyMisses`.
- Shell quoting loses newlines, because the reader drops a backslash-newline pair:
  `Shell.QuotingRoundTripIff`. A quote that is left open makes the reader step over the
  NUL and read behind its buffer (src/man.c:4117-4164); the model answers `None` there: `Shell.OpenQuote`.
- An empty target encoding can turn the next word of the line into the declared encoding:
  `Coding.SettlesIff`, `Coding.EmptyTargetFails`.
- The cache of `ult_src` is keyed by name and flags only (src/ult_src.c:277-296), so a request for
  another path is answered for the first: `UltSrc.PathIgnored`. `UltSrc.SessionExactIff` and
  `UltSrc.SessionPathsIff` say for which sessions the answers are exact.

## Model

| member | source | states |
|---|---|---|
| Decimal.PrintRoundTrip | libdb/db_store.c:163-196 | every signed number printed into a record is read back, whatever its sign |
| Record.MakeContent | libdb/db_store.c:163-196 | fills the NULL fields in place and writes the ten fields of the structure |
| Record.SplitData | libdb/db_lookup.c:161-188 | cuts at the first nine tabs into the array, or reports corrupt data exactly when there are fewer |
| Record.SplitContent | libdb/db_lookup.c:191-211 | a fresh structure holding what the content says, corrupt data otherwise |
| Record.DecodeEncode | libdb/db_lookup.c:191-211 | reading an encoded record gives name, extension and every field back, also when the whatis text has tabs |
| Record.RecordText | libdb/db_store.c:163-196 | the bytes of a record: name or "-", extension, section, seconds, nanoseconds, id, pointer, filter, compression and whatis text, with tabs between |
| Record.DecodeOkIff | libdb/db_lookup.c:161-188 | a content can be read exactly when it is ten fields, tab-free but for the last, joined by tabs |
| Record.DecodeFields | libdb/db_lookup.c:191-211 | what the ten fields are read as: "-" as no name, the times as numbers, the id as its first byte |
| Record.ContentRoundTrip | libdb/db_store.c:163-196 | make_content writes a C string; reading it gives every field back, with "-" for a pointer, filter or compression that was NULL and "" for a whatis text that was NULL; and encoding again gives the same bytes |
| Decimal.ReprintIff | libdb/db_lookup.c:191-211 | reading a number field and printing it gives the text back exactly for "0" and for digits without a leading 0, with or without a minus sign in front |
| Decimal.AtolReads | libdb/db_lookup.c:191-211 | a number field is read behind white space, with either sign or none, up to the first byte that is no digit |
| Record.ReencodeIff | libdb/db_lookup.c:191-211 | any readable content comes back byte for byte exactly when both number fields have that shape and the id is one byte |
| References.NameExtTotalOrder | libdb/db_lookup.c:219-226 | name_ext_compare is a strict total order, zero only on equal pages |
| References.NameExtLessIff | libdb/db_lookup.c:219-226 | pages are ordered by name and then by extension, each by the first differing byte |
| References.ListExtensions | libdb/db_lookup.c:234-257 | the loop of strsep pairs and sorted insertions computes the list of the text |
| References.NameAlone | libdb/db_lookup.c:234-257 | a last name without an extension is dropped |
| References.MakeExtensionsReference | libdb/db_store.c:199-217 | two passes fill a buffer of the counted size, never outside it, with the text of the list |
| References.RefTextAround | libdb/db_store.c:199-217 | the bytes of a list: for every page a tab, its name, a tab and its extension |
| References.ReferenceRoundTrip | libdb/db_lookup.c:234-257 | list_extensions inverts make_extensions_reference on every non-empty sorted list |
| Ordered.InsertSorted | libdb/db_store.c:325-331 | gl_sortedlist_add on the sorted list of a set gives the sorted list of the set with the element |
| Ordered.RemoveSorted | libdb/db_delete.c:94-115 | removing one index of the sorted list of a set gives the sorted list of the rest |
| References.CheckMultiKey | src/check_mandirs.c:871-908 | the two-pointer walk computes the verdict |
| References.CheckMultiKeyExact | src/check_mandirs.c:871-908 | on a written list it complains exactly when some listed name is no prefix of the key up to case |
| References.CheckMultiKeyMisses | src/check_mandirs.c:871-908 | a listed name that is only a beginning of the key is not reported |
| References.CheckMultiKeyAccepts | src/check_mandirs.c:871-908 | a list whose names equal the key up to case is never reported |
| Xdbm.DatumCompareIsStrcmp | libdb/db_xdbm.c:48-74 | datum_compare on NUL-terminated keys is strcmp; the size tie-break never decides |
| Xdbm.Dbm.FirstKey | libdb/db_xdbm.c:99-133 | a traversal of the store in any order, sorted into the remembered snapshot, gives its first key |
| Xdbm.Dbm.NextKey | libdb/db_xdbm.c:135-154 | the successor of the key in the remembered snapshot, read without touching the store |
| Xdbm.CursorEnumerates | libdb/db_xdbm.c:99-154 | the cursor stands on the n-th key of the snapshot after n steps and ends after the last, so every key comes once, ascending |
| Index.EncodingUnique | libdb/db_store.c:249-448 | a view has one encoding |
| Index.RepresentsWellFormed | libdb/db_store.c:219-248 | an encoding is well formed: a simple key is one record or a non-empty sorted list of pages of its name, a multi key is there exactly when listed |
| RecordKeys.PagesUnique | libdb/db_store.c:219-248 | a raw store is the encoding of at most one map of pages |
| RecordKeys.PageInStore | libdb/db_store.c:249-448 | where a stored page lies: alone, under its lower-cased name, with its name only if that differs; listed, under name, tab, extension |
| DbStore.DecideIff | libdb/db_store.c:94-160 | an entry takes the place of another exactly when its id is better, or it is newer and its id is as good (a link is as good as a page), or only the pointer differs and comes first; it fails exactly when nothing but the compression differs |
| DbStore.ReplaceIfNecessary | libdb/db_store.c:94-160 | the branches act on the store as the decision says; the old contents are inserted anew when the key was missing |
| DbStore.NameToKey | libdb/db_lookup.c:149-158 | the loop turns every byte from A to Z into the one 32 above it and keeps all others |
| CString.SameLettersIff | libdb/db_lookup.c:149-158 | two names have one key exactly when they agree byte for byte but for the case of letters |
| DbStore.Store | libdb/db_store.c:249-448 | dbstore on any raw store: the status, the new store and the new structure, for all three situations; 2 and no change for an empty name |
| DbStore.StoreMulti | libdb/db_store.c:291-341 | situation (2): replace under the multi key, or insert it and list the page |
| DbStore.StoreSecond | libdb/db_store.c:342-444 | situation (3): replace the same page, or split |
| DbStore.StoreSplit | libdb/db_store.c:374-440 | the split: both multi keys and the list of two |
| StoreRefinement.StoreRefines | libdb/db_store.c:249-448 | without a clash dbstore is one map update: the page gets the survivor, all other pages keep their entries through the change of form, the encoding invariant holds, and the status is 1 exactly on a tie with other compression |
| StoreRefinement.StoreKeepsNewest | libdb/db_store.c:115-123 | of two entries of one id for a page, the index keeps the one with the later seconds and nanoseconds |
| StoreRefinement.ClashBreaks | libdb/db_store.c:413-438 | a clash answers 1 and leaves a page listed without a record; the store is the encoding of nothing |
| StoreRefinement.StoreKeepsInvariantIff | libdb/db_store.c:249-448 | dbstore keeps the invariant if and only if the call is no clash |
| DbDelete.Delete | libdb/db_delete.c:63-144 | dbdelete on any raw store: the status and the new store |
| DbDelete.DeleteRefines | libdb/db_delete.c:63-144 | on an index, for every query that does not misfire, it keeps the invariant, meets no corrupt data, and removes exactly the victim; it answers 1 when there is none |
| DbDelete.DeleteExactlyIff | libdb/db_delete.c:63-144 | for every index and every query: an index with the same identifiers is left, without corrupt data, if and only if the key is not in the store as a special key or a multi key |
| DbDelete.VersionDelete | libdb/db_delete.c:80-82 | asked for the version identifier, it deletes it |
| DbDelete.MultiKeyDelete | libdb/db_delete.c:80-82 | asked for the text of a lower-case multi key, it deletes that record, and the page stays listed |
| DbDelete.DeletePresent | libdb/db_delete.c:63-144 | a page that is present is removed and no other |
| DbDelete.DeleteAbsentIff | libdb/db_delete.c:80-82 | asking for any absent page changes nothing exactly when its key is not in the store or in list form |
| Runs.RunRefines | libdb/db_store.c:249-448 | any interleaving of dbstore and dbdelete in which no call is a clash or misfires, whatever the calls answer, is the same run on a plain map, keeps the invariant and the identifiers, and never meets corrupt data |
| Runs.RunFromEmpty | libdb/db_delete.c:63-144 | the same from the empty index |
| Runs.QuietBreaksNothing | libdb/db_store.c:413-438 | what a caller can see: a run in which no dbstore answers 1 and no special or tabbed name is deleted breaks nothing |
| Runs.RunIndexIff | libdb/db_store.c:249-448 | for all runs from an index, with deletions of any page: the run goes through and ends in an index with the same identifiers if and only if no call is a clash or misfires; no later call repairs either |
| Runs.ClashThenDelete | libdb/db_delete.c:106-111 | after a clash, deleting the page that was listed without a record is the corrupt-data exit |
| Runs.RunSpares | libdb/db_store.c:280-444 | over a whole run, a page that no call is about keeps its entry, through every change from single to list form |
| Order.StoreAllRepresents | libdb/db_store.c:249-448 | calls without cross ties leave the encoding of the final entry of every page |
| Order.FinalIsNewest | libdb/db_store.c:115-123 | over any sequence of calls that agree on the id of a page, the newest of its entries is left |
| Order.BeatsIff | libdb/db_store.c:94-160 | which of two entries wins in both orders, in terms of id, mtime and pointer |
| Order.WinnersMakeOrderIrrelevant | libdb/db_store.c:249-448 | if every page has a winner, permuted calls give the same raw store |
| Order.OrderIrrelevantIff | libdb/db_store.c:249-448 | for calls without cross ties: all orders agree if and only if every page has a winner |
| Order.OrderIrrelevantByFields | libdb/db_store.c:94-160 | if ties agree and no link is newer than its page, all orders give the encoding of the best entries by id, newest mtime and least pointer |
| Order.NewerLinkOrderMatters | libdb/db_store.c:112-118 | a newer link and the real page replace each other; the last one stays |
| Order.CrossTieBreaks | libdb/db_store.c:413-438 | two calls that tie across pages give different stores in their two orders, neither of them an index |
| LooseStores.StepLocal | libdb/db_store.c:249-448 | dbstore on every reachable store, broken lists included, never meets corrupt data and changes nothing below other keys |
| LooseStores.ListCounts | libdb/db_lookup.c:234-257 | list_extensions reads back the pages of any written list, sorted or not, with their repetitions |
| CrossTies.TraceStays | libdb/db_store.c:291-341 | after a cross tie the second page is listed without a record, or twice once it is stored again, whatever else is stored |
| CrossTies.CrossTieMatters | libdb/db_store.c:413-438 | calls with a cross tie have two orders that leave different stores |
| CrossTies.OrderIrrelevantExactly | libdb/db_store.c:249-448 | for all calls: every order gives the same raw store if and only if there is no cross tie and every page has a winner |
| DbLookup.Lookup | libdb/db_lookup.c:271-371 | dblookup on any raw store |
| DbLookup.LookupAll | libdb/db_lookup.c:373-378 | dblookup_all is dblookup without exact matching of the section |
| DbLookup.LookupExact | libdb/db_lookup.c:380-394 | dblookup_exact is the first structure dblookup finds, or NULL |
| DbLookup.LookupComplete | libdb/db_lookup.c:271-371 | for every index and every query: the corrupt exit is taken exactly for a special key whose content cannot be read; a query that is not misdirected returns exactly the pages whose name is the query's up to case, and equal to it if case counts, and whose extension is the section, or begins with it; each once, in (name, ext) order, with all fields; a multi key returns its record |
| DbLookup.LookupExactlyIff | libdb/db_lookup.c:271-371 | the answer is exactly the suitable pages if and only if the key is not in the store as a special key or as a multi key of a suitable extension |
| DbLookup.VersionLookup | libdb/db_ver.c:70-88 | looking up the version identifier of an index is the corrupt exit |
| DbLookup.MultiKeyLookup | libdb/db_lookup.c:295-315 | the multi key of a lower-case listed page, given as a page name, returns that page under the text of the key |
| DbLookup.LookupAllExact | libdb/db_lookup.c:373-378 | without case, exactly the stored pages whose name agrees with the query's but for the case of letters and whose extension begins with the section, if and only if the query is not misdirected |
| DbLookup.LookupExactFinds | libdb/db_lookup.c:380-394 | with case, for every query that is no identifier: found exactly when the page is stored, its lower-case form is stored alone under the key, or the query is a multi key of that extension |
| DbLookup.LookupExactLeast | libdb/db_lookup.c:380-394 | with case or without, what is found is the least page, by name and extension, that answers the query; NULL when there is none |
| DbLookup.LookupExactIsMap | libdb/db_lookup.c:380-394 | for a lower-case name it is the lookup in the map of pages, if and only if the query is not misdirected |
| Purge.CountGlobMatches | src/check_mandirs.c:740-773 | the loop counts the found files that exist, are new enough and have the extension |
| PurgeSpec.CountPositive | src/check_mandirs.c:740-773 | the count is positive exactly when some found file counts |
| PurgeSpec.KeepIff | src/check_mandirs.c:778-868 | an entry of id A, B or D stays exactly when some found file, of any age, has its extension, and never calls for a rescan; any other exactly when such a file is newer than the database, or its pointer is not "-" and leads to a page that is found; it calls for a rescan exactly in the first case and when the pointer is "-" |
| Purge.Globals.PurgeNormal | src/check_mandirs.c:778-798 | keep when a file is found, else delete unless testing, and say which |
| Purge.Globals.PurgeWhatis | src/check_mandirs.c:801-868 | the same for a reference, with its rescan cases |
| Purge.Globals.PurgeEntry | src/check_mandirs.c:984-1018 | the dispatch on the page type decides by the keep-decision |
| Purge.Globals.PurgeMissing | src/check_mandirs.c:913-1038 | on any store the loop over the cursor is the run over the sorted snapshot, deletes ahead of the cursor included; on an index it leaves exactly the pages that are to stay by their id and the files found, counts the others, and sets the rescan flag in exactly those cases |
| PurgeRefinement.StepRefines | src/check_mandirs.c:945-1037 | one turn removes the page whose record is under the key if it is not to be kept, and keeps the invariant |
| PurgeRefinement.PurgeIsFilter | src/check_mandirs.c:945-1037 | the run over the snapshot leaves exactly the pages that are to stay, with their entries, counts the removed ones, asks for a rescan exactly when a reference calls for it, and keeps the invariant |
| Traversal.LookupPattern | libdb/db_lookup.c:396-508 | on any store the cursor loop is the run over the sorted snapshot; on an index it returns exactly the pages of the section (by section or extension) whose name matches or, when descriptions are tried, whose whatis text matches; none twice, with proper names and all fields |
| Traversal.PatternExact | libdb/db_lookup.c:416-502 | the run considers every stored page of an index once |
| Traversal.Reorganize | src/mandb.c:443-496 | the loop of inserts is the copying run; no insert fails, the copy replaces the original and holds the same store, and the copy of an index is that index |
| Traversal.ReorganizeIsCopy | src/mandb.c:465-480 | the copying run in cursor order never inserts a key twice and gives an equal store |
| Fnmatch.MatchHasLiteralPrefix | src/globbing.c:252-254 | a pattern without a closed bracket expression in its literal prefix only matches names that begin with that prefix up to case |
| Fnmatch.StarIff | src/globbing.c:272 | a star in a pattern stands for any text |
| Fnmatch.QuestionIff | src/globbing.c:272 | a question mark stands for any one character |
| Globbing.PatternCompareMonotone | src/globbing.c:204-209 | along a sorted cache the comparison with a prefix only falls, so binary search is sound |
| Globbing.PatternStart | src/globbing.c:252-254 | the literal prefix ends at the first question mark, star, brace or backslash |
| Globbing.Bsearch | src/globbing.c:256-258 | finds some name with the prefix, or there is none |
| Globbing.MatchWildcard | src/globbing.c:239-282 | search, back-up and forward scan return every cached name with the prefix that matches, in cache order |
| Globbing.SearchIsFilter | src/globbing.c:239-282 | the search equals the linear filter on every sorted cache, for every pattern without a closed bracket expression in its literal prefix, folding case or not |
| Globbing.BracketLoses | src/globbing.c:253 | with one it loses every name that escapes the expression, that is, matches without going on with the literal text of the expression |
| Globbing.OtherEscapes | src/globbing.c:253 | an expression that accepts anything other than an opening bracket can be escaped if the text behind it can match |
| Globbing.OpeningEscapes | src/globbing.c:253 | so can one that accepts an opening bracket, if the pattern ends behind it or goes on with a wildcard or another literal character |
| Globbing.CompleteIff | src/globbing.c:239-282 | the search equals the linear filter if and only if the literal prefix has no closed bracket expression, provided the first one can be escaped |
| Globbing.CompleteFromBracket | src/globbing.c:239-282 | without any proviso, only the pattern from the first closed bracket expression on decides whether the search equals the filter |
| DirSearch.ReadSorted | src/globbing.c:148-197 | the doubled array holds all entries and is sorted without case |
| DirSearch.DirCache.Update | src/globbing.c:148-197 | a directory is read once, and every cached directory stays as it is |
| DirSearch.DirCache.MatchInDirectory | src/globbing.c:284-300 | appends the paths of the matching entries |
| DirSearch.DirCache.LookForFile | src/globbing.c:302-346 | the two-level search of the GNU layout; every readable directory it looks at is cached then; without wildcards it finds exactly the files on disk, below the section directories, named name.section and anything, or, with an extension, name, a dot, anything, the extension and anything; with wildcards exactly the files that match |
| DirSearch.DirPatternIff | src/globbing.c:326-336 | the directories looked at: those that begin with man (or cat) and the first character of the section, or man (or cat) itself for an empty section |
| DirSearch.WantedIff | src/globbing.c:64-86 | the pattern of a lookup without wildcards matches a name exactly when it begins with name.section, or is name, a dot, u, the extension and w for some u and w; up to case unless case counts |
| DirSearch.LookOnDisk | src/globbing.c:320-343 | for every pattern without a closed bracket expression in its literal prefix: once the directories looked at are cached, the search finds exactly the files on disk that match |
| DirSearch.EscapedThen | lib/util.c:132-153 | an escaped text in front of a pattern matches exactly that text, whatever bytes it has |
| DirSearch.EscapedMatches | lib/util.c:132-153 | an escaped text and a star match exactly the strings that begin with the text, up to case when it is folded |
| DirSearch.LiteralSearch | src/globbing.c:239-282 | the search for an escaped text returns exactly the cached names that begin with it |
| DirSearch.LiteralLookup | src/globbing.c:64-86 | for every page name, metacharacters included, the whole lookup over a cache returns exactly the names that begin with name.section, in cache order |
| DirSearch.LiteralOnDisk | src/globbing.c:320-343 | so a lookup without wildcards finds exactly the wanted files on disk, with an extension or without |
| Shell.EscapeShell | lib/util.c:132-153 | fills a buffer of twice the length and one byte, never outside it, with the quoted string |
| Shell.EscapeKeepsIff | lib/util.c:132-153 | a string is left as it is exactly when it consists of letters, digits and ,-./:@_ |
| Shell.ShLangFirstWord | src/man.c:4117-4164 | unless a quote is left open, the nested loops stay inside both buffers and compute the first word of the quoting rules (section 2.2 of the Shell Command Language); with an open quote the source reads behind its buffer and the model answers None |
| ShellWords.WordIff | src/man.c:4117-4164 | the answer is w exactly for the commands that begin with a word of the Shell Command Language (section 2.2) with value w: bare, backslashed, single-quoted and double-quoted pieces up to white space or a comment |
| Shell.OpenQuote | src/man.c:4117-4164 | a command with an open quote, and one with it closed |
| Shell.QuotingLosesNewlines | lib/util.c:132-153 | reading a quoted string back gives it without its newlines, for every string |
| Shell.QuotingRoundTripIff | src/man.c:4117-4164 | the round trip holds if and only if the string has no newline |
| Utf8.FastValidate | src/utf8.c:45-121 | the byte machine stops at the end of the longest valid prefix and reads only inside the buffer |
| Utf8.ValidateLen | src/utf8.c:131-138 | accepts exactly the NUL-free texts of section 4 of RFC 3629 |
| Utf8.ValidateChar | src/utf8.c:58-112 | the branches on the first octet, with their masks and gotos, accept exactly one character of the grammar |
| Utf8.ScanLongest | src/utf8.c:45-121 | no longer prefix is valid |
| Utf8.ValidTextIff | src/utf8.c:131-138 | the grammar of section 4 and the encoding of section 3 of RFC 3629 describe the same NUL-free texts |
| Ult.UltHardlink | src/ult_src.c:84-128 | the running minimum is the least name of the inode in the directory; NULL when the file has it or the directory cannot be read |
| Ult.HardlinkedIs | src/ult_src.c:84-128 | the answer is the file's own name or a listed name of its inode, and none of these precedes it; the file itself when the directory cannot be read |
| Ult.ListingOrderIrrelevant | src/ult_src.c:106-113 | the order in which the directory is read does not matter |
| Ult.HardlinkedAgree | src/ult_src.c:84-128 | two names listed for one inode lead to the same name |
| Ult.FindIncludeDirective | src/ult_src.c:149-174 | the first line that is no comment, "" without one |
| Ult.DirectiveIff | src/ult_src.c:149-174 | the line that decides is the first that does not begin with a dot, a backslash and a double quote |
| Ult.TestForInclude | src/ult_src.c:180-215 | an answer exactly for lines of the form .so with a relative file name, and then that name |
| Ult.IncludeOfIff | src/ult_src.c:180-215 | which lines include which file, as a shape of the line |
| Ult.FindInclude | src/ult_src.c:217-275 | the tree, its compressed form, the page's directory, its compressed form, in this order; then canonicalised |
| Ult.TargetIff | src/ult_src.c:217-262 | the target is the first that exists of twenty files: path/include and its nine compressed names, then the same in the directory of the page |
| Paths.DirNameCases | src/ult_src.c:243 | the directory of a page: what stands before its last slashes, "/" in the root directory, "." without a slash |
| UltSrc.NextIff | src/ult_src.c:404-430 | one step: a file whose deciding line includes something leads to the canonical name of the first candidate that exists; one that can be read and includes nothing ends the chain; everything else breaks it |
| UltSrc.UltCache.Resolve | src/ult_src.c:356-451 | the links are followed once, then the include loop; NULL on every failure |
| UltSrc.UltCache.ChaseIncludes | src/ult_src.c:404-437 | the loop with its trace answers exactly when fewer than ten includes reach a file without one |
| UltSrc.FollowEnds | src/ult_src.c:404-445 | a chain that ends after n includes is followed exactly when n is below ten; the trace is the name, every target, and the final path |
| UltSrc.CyclicGivesNull | src/ult_src.c:431-436 | a chain that comes back to a file never ends, and the answer is NULL |
| UltSrc.HardLinksAgree | src/ult_src.c:389-427 | two hard-linked regular files of one directory have the same ultimate path and the same trace behind their names |
| UltSrc.SoftLinksAgree | src/ult_src.c:377-388 | a symbolic link has the ultimate source of the file it leads to, and none when it leads nowhere |
| UltSrc.NoLinks | src/ult_src.c:367-376 | a page is its own source when no flag makes a link be followed; with link flags a page without a status has none |
| UltSrc.UltCache.UltSrc | src/ult_src.c:339-451 | a remembered answer, or a new one that is then remembered; a coherent cache stays coherent |
| UltSrc.AnswersOfFirst | src/ult_src.c:348-356 | every request of a session is answered what the first request with its name and flags is answered, negative answers included |
| UltSrc.SessionExactIff | src/ult_src.c:348-356 | for all sessions: the cached answers are the uncached ones if and only if every request has the uncached answer of the first request with its name and flags |
| UltSrc.SessionPathsIff | src/ult_src.c:277-296 | for sessions that pass no file status: the cache is exact on every file system if and only if requests that share name and flags, and ask for includes, share their path |
| UltSrc.SessionExact | src/ult_src.c:348-356 | the answers are exact for sessions of one path whose callers pass the true file status or none |
| UltSrc.PathIgnored | src/ult_src.c:277-296 | two requests that differ in their path only, the second answered wrongly |
| Compression.SplitIff | lib/compression.c:132-152 | a file name without slashes is taken apart exactly into a stem, a dot and one of the nine suffixes |
| Compression.Table.CompInfo | lib/compression.c:132-167 | returns the entry of the suffix with the stem set, and changes no other entry |
| Compression.Table.CompFile | lib/compression.c:171-195 | the first suffix under which the file exists, its stem the whole name |
| Filenames.MakeFilename | lib/filenames.c:53-73 | the composed path if it is readable, else NULL |
| Filenames.FilenameInfo | lib/filenames.c:87-150 | a structure with what the name says, NULL for a bogus name |
| Paths.BaseNameCases | lib/filenames.c:95 | the last component of a file name, which keeps one slash of those behind it |
| Filenames.ParseIff | lib/filenames.c:87-150 | in a section directory, filename_info gives a description exactly when the description is faithful and make_filename turns it back into the file; so it does after the index has written "-" for no suffix |
| Manconv.ConvertEncoding | src/manconv.c:124-149 | strips at most one suffix in its buffer and answers with the table's name or what is left |
| Manconv.StemIff | src/manconv.c:130-138 | a name loses one -dos, -mac or -unix, in any case, unless it is nothing else |
| Manconv.ConvertIs | src/manconv.c:142-148 | the name is that of the first table entry that agrees with what is left up to case; without one it is what is left |
| Manconv.ConvertEmpty | src/manconv.c:124-149 | an encoding is converted to "" only if it is "" |
| Coding.CheckPreprocessorEncoding | src/manconv.c:159-223 | the declared encoding, and the modified line exactly when a target is given that it does not match |
| CodingShape.DeclaresIff | src/manconv.c:170-206 | which lines declare an encoding, and where: a marked line, the first -*- behind the mark, the first coding: among the variables that semicolons separate, blanks, and the longest run of letters, digits and -_/:.() |
| CodingShape.CheckIs | src/manconv.c:198-220 | for such a line the encoding is the conversion of that run; the line is rewritten exactly when it differs from the target in more than case, and then only the run changes |
| CodingShape.CheckIsNot | src/manconv.c:170-206 | every other line declares nothing and is not rewritten |
| Coding.ReadBack | src/manconv.c:170-222 | a line modified for a non-empty encoding name declares exactly the conversion of that name, at the old place |
| Coding.RewriteBack | src/manconv.c:214-220 | writing the old token back gives the old line: nothing outside the token is lost |
| Coding.SettlesIff | src/manconv.c:159-223 | for targets convert_encoding leaves alone, one rewrite settles the line if and only if the target is not empty or no word moves into its place |
| Coding.EmptyTargetFails | src/manconv.c:159-223 | a line that an empty target does not settle |

## Left out

- Order.OrderIrrelevantIff: assumes calls without cross ties; CrossTies.OrderIrrelevantExactly does without.
- Globbing.CompleteIff: leaves open a first bracket expression that nothing escapes, such as one that accepts only an opening bracket and is followed by its own literal text in escaped form.
- Filenames.FilenameInfo: asks for a directory with a slash and a last component of three bytes or more; for other files (such as foo.1, whose dir_name is ".") the code computes its section from NULL or behind the string, which has no value to model.
- DbLookup.LookupExactlyIff: takes the content of a special key to have no tab, as dbver_wr writes it; DbLookup.LookupComplete does without.
- DbDelete.DeleteExactlyIff: takes the content of a special key to have no tab, as dbver_wr writes it.
- Runs.RunIndexIff: takes the content of a special key to have no tab, as dbver_wr writes it.
- PurgeSpec.KeepIff: ids are compared as unsigned bytes; where char is signed, ids of 128 and more compare as negative.
- DirSearch.DirCache.LookForFile: what is found on disk is stated for sections and extensions that need no escapes, and for patterns without a closed bracket expression in their literal prefix.
- Record.ReencodeIff: the width of long and time_t, and what atol does on overflow, are not modelled; contents are C strings.
- The gdbm, ndbm and Berkeley DB back ends, file locking and signal guards: foreign libraries; fetch, insert, replace, delete, exists and an unordered traversal are those of a map, and replacing does not fail.
- Aliasing between results: returned lists and structures of the lookups are values; only the structures that a function fills in place are objects.
- The snapshot of firstkey is a field of each database object; the code keeps it in a table keyed by the database handle.
- iconv, zlib, pipelines, forking, seccomp, setuid handling and temporary cat files: process plumbing.
- The rest of src/man.c and the ordering of candidates: locale, path and configuration state.
- pathappend in src/manp.c, configuration parsing, manpath guessing, terminal width and messages.
- purge_pointers: it stops early at a vanished key, so it has no filter property.
- FAVOUR_STRAYCATS and the 4096-byte truncation of NDBM: only the default build is modelled, with every decompressor configured in.
- Regular expressions, bracket expressions and collation: oracles; the FNM_LEADING_DIR and FNM_PERIOD flags are not used by this code.
- The HP-UX, IRIX, Solaris and BSD layouts of look_for_file.
- The gnulib functions dir_name, base_name, qsort and bsearch are modelled by their documented behaviour; their source is not part of this model.
- sanity_check and the version check of an index are one boolean each.
