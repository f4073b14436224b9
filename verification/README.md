# libwstk in Dafny

A model of the parts of libwstk that compute: JSON trees and their patches, the streaming multipart
parser, the chained hash table, the incremental digests, IPv4 and IPv6 text conversion, and Base64.
Each of them is modelled in the form of its C code, loops, fields and buffers included, proved
against a specification function, and the specifications are then proved to have the properties
the code is for. `dafny verify dfyconfig.toml` checks everything.

## What is proved

- **Multipart** (`Multipart`, `MultipartBody`, `MultipartShape`). `Parser.Execute`, with its scanning loops
  and the re-execution of bytes, does what a one-byte step function does. Hence chunking is invisible: any
  cutting of the input gives the same state, the same callbacks after joining adjacent deliveries, and
  the same error position. A body rendered from parts as RFC 2046 section 5.1.1 describes is parsed
  back into those parts, however it is cut; content survives exactly when it holds no CR LF and two
  hyphens, and the parts are recovered exactly when no header with an empty value is followed by
  another. And whatever is accepted to the end of a body has the shape of one.
- **JSON text** (`JsonPrint`, `JsonString`, `JsonParse`, `JsonTextRoundTrip`, `JsonGrammar`, `JsonSpelling`,
  `JsonLayout`). The printer, into a growing or a given buffer, produces exactly a rendering function, and
  says exactly when it fails.
  The parser computes exactly a reading function; its string buffer never overflows, whatever the
  escapes. It accepts exactly the texts of a grammar, with the values that gives them, strings and their
  escapes included. Printing and parsing returns the tree exactly when it is nested at most 1000 deep.
- **JSON lists** (`BackLinks`, `NodeList`, `NodeSort`, `Sorting`). Append, detach, insert and replace on
  nodes with `next` and `prev` are the matching sequence operations and keep the shape in which the `prev`
  of the head is the tail. The in-place merge sort relinks the same nodes into sorted order but leaves that
  `prev` to chance; what it is after any sorts, removals and appends is proved, and an append keeps every
  member exactly when it still leads to the last one.
- **JSON equality and pointers** (`Names`, `Json`, `JsonCompare`, `JsonPointer`). The sorting and the
  searching comparison both decide equality up to the order of members on trees with distinct names. What
  the former leaves of both documents is stated, and exactly when that is what they were, or still in a
  shape to append to. The pointer of a node leads back to it exactly when no earlier member of the same
  name shadows it.
- **JSON Patch** (`JsonPatch`, `JsonPatchLaws`, `JsonPatchOperations`, `JsonPatchDecode`,
  `JsonPatchMisled`, `JsonPatchNamesakes`, `JsonPatchLoop`, `JsonPatchRoundTrip`, `JsonPatchNames`,
  `JsonPatchStatus`, `JsonLinks`, `JsonPatchApply`, `JsonPatchRuns`). For any two documents with distinct
  names, the patches created from them lead from one to the other if and only if the names that end their paths survive
  decoding and removals, which ignore case, take the members they are meant for. Copy and move are the
  operations RFC 6902 section 4 reduces them to, and opposite operations undo each other. Documents carry
  the link that appending follows, so that tests, which sort, have their effect: an add after a test keeps
  all members exactly when sorting kept both ends, and a failed patch leaves the document alone exactly when
  it had neither detached a value nor sorted an object. What every patch answers, tests included, is settled
  by what it holds and what its paths lead to.
- **JSON Merge Patch** (`MergePatch`, `MergePatchLaws`). Merging is RFC 7396 for all names distinct in the
  mode used. Wherever the two comparisons of names that the generator mixes agree, no patch is generated
  exactly for equal objects, and applying a generated patch leads to the goal exactly when a merge patch can
  express it; for any two names on which they disagree there are documents for which it does not.
- **Hash table** (`HashKeys`, `HashTable`). Every run of calls behaves as a map, through both ways of
  growing and every failure of the allocator; an iteration yields each binding once.
- **Digests** (`BitCounter`, `Digest`, `Sha1Transform`, `Sha1`, `Sha1Vector`, `Md5Transform`, `Md5`,
  `Md5Vector`). However a message is split, the digest is the fold of the compression function over the padded message, as long as the counters
  are right, and exactly when they are is proved. The SHA-1 transform with its circular schedule and
  rotated registers is the 80-word schedule of RFC 3174 section 6.1, the MD5 rounds are those of RFC 1321
  section 3.4, and both digests of "abc" are worked out.
- **Addresses** (`Inet4`, `Inet6`, `Inet6Parse`, `Inet6RoundTrip`, `Inet6Dotted`, `Inet6Grammar`). Every
  address reads back from its text, whose compressed run is the one RFC 5952 section 4.2 asks for, and which
  ends in an IPv4 address exactly for two kinds of addresses. The texts that are accepted are exactly those
  of two grammars.
- **Base64** (`Base64`). Encoding and decoding are exact inverses, for every length.

## Where the code differs from what is expected of it

The model follows the code. Each of these is stated by a member in the table.

- A false boundary in a body loses CR LF and two hyphens (`MultipartBody.ContentReportedIffNoDelimiter`).
  The comment on `header_field_chars` (libwstk/src/multipartparser.c:45) says that names are lowercased; they are not.
- `decode_pointer_inplace` moves no ordinary character, so that names with a slash, and most with a
  tilde, do not survive (`JsonPatchLaws.DecodeUndoesEncodeIff`, `JsonPatchNames.AddedNameSurvivesIff`).
- `detach_path` ignores case in either mode, so that a removal can take another member than the one meant
  (`JsonPatchNames.RemoveOwnIff`, `JsonPatchNames.CaseCollisionBreaks`).
- `generate_merge_patch` sorts and walks with names compared in different ways, and recurses without regard
  to case (`MergePatchLaws.DisagreementBreaks`, `MergePatchLaws.CaseMissed`, `MergePatchLaws.OrderMissed`,
  `MergePatchLaws.UpperCaseBreaks`).
- `decode_array_index_from_pointer` tests the first character where it means the current one, so that
  characters above the digits continue an index, and takes the empty token for zero
  (`JsonPointer.IndexAccepted`).
- `parse_hex4` answers zero for anything that is no digit, so that a backslash and u without four digits is
  taken for a NUL and ends the string (`JsonSpelling.BadEscapeIsNul`).
- A replace without a value, and a move to a place that does not exist, lose the value they have
  detached, and a test sorts what it compares (`JsonPatchRuns.FailureKeepsDocumentIff`); copy and move cannot
  replace the root.
- `sort_object` leaves the `prev` of the head to chance: a later append can be lost or cut the list
  (`NodeSort.SortThenAdd`).
- libwstk/include/cJSON.h:162 asks for 5 spare bytes in the buffer of `cJSON_PrintPreallocated`; 2 more than the text are
  enough and needed (`JsonPrint.PrintPreallocated`).
- When the entry of an insertion cannot be allocated, the old binding of its key is already gone
  (`HashTable.Table.Insert`).
- The carry test of `SHA1_Update` compares a 32-bit sum with a 64-bit number of bits and miscounts
  chunks from 2^29 octets on (`Sha1.CountedRight`, `Sha1.LargeChunkMiscounted`). `wstk_md5_update` narrows
  its length to an int (`Md5.LongChunkCut`).
- The comment before `xxx_inet_pton6` (libwstk/src/wstk-net-util.c:196) says that `::` in a full address is ignored;
  the words behind it are cleared, and a trailing colon is accepted
  (`Inet6RoundTrip.ColonsClearWords`, `Inet6RoundTrip.TrailingColonAccepted`).

## Model

| member | source | states |
|---|---|---|
| Multipart.Parser.constructor | libwstk/src/multipartparser.c:92-100 | a new parser stands in the preamble with nothing reported, and keeps at most 70 characters of the boundary |
| Multipart.Parser.Execute | libwstk/src/multipartparser.c:107-316 | one call, with its scanning loops and re-executed bytes, has exactly the effect of feeding its bytes to a one-byte step function: same state, same joined callbacks, same number of bytes accepted; `MultipartBody.TokenTable` says which bytes a name may hold |
| Multipart.Parser.Scan | libwstk/src/multipartparser.c:160-172 | a scan stops at the first byte that ends it, at or after its start, and delivers exactly the bytes it passed, in at most one callback |
| Multipart.Parser.Switch | libwstk/src/multipartparser.c:117-312 | one pass of the switch either consumes bytes exactly as single steps would, or asks for the same byte again in a state of lower rank with nothing consumed, so re-execution ends |
| Multipart.Parser.SwitchHeld | libwstk/src/multipartparser.c:232-277 | in every state inside a possible delimiter, a byte either takes one step or is executed again with the same outcome after what was held back has been delivered |
| Multipart.Parser.SwitchOnly | libwstk/src/multipartparser.c:119-151 | the states that neither scan nor execute a byte again take exactly one step |
| Multipart.Parser.MatchBoundary | libwstk/src/multipartparser.c:264-277 | in the boundary state the byte is accepted as the next boundary character, or the matched prefix is delivered as content and the byte executed again |
| Multipart.Parser.Reswitch | libwstk/src/multipartparser.c:115-312 | the goto terminates, and the passes together advance as single steps do |
| Multipart.MatchesSigned | libwstk/src/multipartparser.c:264-277 | an input octet matches a boundary character exactly when it has the value the character has as a signed char |
| Multipart.ScanRefinesSteps | libwstk/src/multipartparser.c:160-198 | delivering a stretch of scanned bytes in one callback gives the same machine as delivering them one by one |
| Multipart.StepWellFormed | libwstk/src/multipartparser.c:107-316 | every step keeps the boundary index within the boundary length plus one, and within the boundary length inside a possible boundary |
| Multipart.RunWellFormed | libwstk/src/multipartparser.c:107-316 | the same after any input |
| Multipart.RunAppend | libwstk/src/multipartparser.c:107-316 | running over a concatenation is running over the first part and, if it was accepted, over the second from the state reached |
| Multipart.RunSuffix | libwstk/src/multipartparser.c:107-316 | what a run does depends on the bytes from its position on only |
| Multipart.ChunkingInvisible | libwstk/src/multipartparser.c:107-316 | any sequence of chunks, from any state, gives the same final state, the same joined callbacks and the same error position as the whole input in one call |
| MultipartBody.ContentReportedIffNoDelimiter | libwstk/src/multipartparser.c:217-277 | content followed by CR LF and two hyphens is reported unchanged if and only if it does not contain CR LF and two hyphens itself (a false boundary loses them) |
| MultipartBody.DeliveredRun | libwstk/src/multipartparser.c:217-277 | a run never delivers more content than it was given, and the four bytes of every delimiter start it reaches are lost for good |
| MultipartBody.HeldContent | libwstk/src/multipartparser.c:232-258 | content behind which part of a delimiter is already held back comes out complete and in order |
| MultipartBody.TokenTable | libwstk/src/multipartparser.c:45-90 | the table of header field characters holds exactly the printable ASCII characters other than the separators of RFC 2616: a hyphen, but no colon |
| MultipartBody.FeedsHeader | libwstk/src/multipartparser.c:152-208 | a header line reports its name and its value and returns to the start of a header |
| MultipartBody.FeedsHeaders | libwstk/src/multipartparser.c:152-216 | the header block of a part reports all headers in order and then, once, that they are complete |
| MultipartBody.FeedsPreamble | libwstk/src/multipartparser.c:119-131 | everything before the first two adjacent hyphens is skipped without a callback |
| MultipartBody.FeedsFirstBoundary | libwstk/src/multipartparser.c:132-151 | the first boundary line reports the begin of the body and of the first part |
| MultipartBody.FeedsBoundary | libwstk/src/multipartparser.c:264-288 | the boundary behind a delimiter is matched from any position on, and CR or a hyphen decides how the line ends |
| MultipartBody.FeedsPartEnd | libwstk/src/multipartparser.c:278-306 | the end of a boundary line reports the end of the part and either the begin of the next or the end of the body |
| MultipartBody.FeedsPart | libwstk/src/multipartparser.c:152-263 | a part reports its headers and its content |
| MultipartBody.FeedsParts | libwstk/src/multipartparser.c:152-309 | any number of parts reports exactly their events, bracketed by begin and end |
| MultipartBody.FeedsEpilogue | libwstk/src/multipartparser.c:307-309 | whatever follows the closing boundary is accepted and reports nothing |
| MultipartShape.StepShape | libwstk/src/multipartparser.c:107-316 | every byte that is accepted keeps the shape of what has been read: up to the state the parser is in, it is a first boundary line, parts of header lines, an empty line and content, and boundary lines between them |
| MultipartShape.RunShape | libwstk/src/multipartparser.c:107-316 | the same for every run that accepts its input, however far it gets |
| MultipartShape.AcceptedIsClosed | libwstk/src/multipartparser.c:107-316 | whatever input is accepted to the end of a body is one: anything up to two hyphens, the boundary and a line end, at least one part of header lines (characters of a token, a colon, no CR), an empty line and content, a delimiter with the boundary behind every part, a line end between any two, and two hyphens behind the last |
| MultipartBody.RenderedBodyIsParsed | libwstk/src/multipartparser.c:107-316 | parsing a rendered body with any preamble, parts and epilogue accepts all of it, reports exactly the events of its parts and ends in the epilogue |
| MultipartBody.PartsRecoveredIff | libwstk/src/multipartparser.c:107-316 | a client that collects the callbacks gets the parts back if and only if no header with an empty value is followed by another header (an empty value makes no callback, so the names run together) |
| MultipartBody.ChunkedBodyYieldsParts | libwstk/src/multipartparser.c:107-316 | however a rendered body is cut into chunks, collecting the callbacks gives back exactly its parts |
| Names.CompareOrder | libwstk/src/cJSON_Utils.c:85-111 | compare_strings is zero exactly on names that are the same in the mode, antisymmetric, and transitive, strictly where one comparison is strict |
| Names.StrCmpZero | libwstk/src/cJSON_Utils.c:85-111 | the case-sensitive comparison is zero exactly on equal names |
| Names.StrCmpIsLexicographic | libwstk/src/cJSON_Utils.c:85-111 | one name comes before another exactly when it is a proper beginning of it or has the smaller character at the first place where they differ |
| Names.LettersFold | libwstk/src/cJSON_Utils.c:85-111 | each of the 26 capital letters is taken for the small letter of the same place, and every other character for itself |
| JsonPointer.MatchesEncoded | libwstk/src/cJSON_Utils.c:122-198 | a name matches the encoding of a name exactly when the two names are the same in the mode, whatever tildes and slashes they hold |
| JsonPointer.MatchesIff | libwstk/src/cJSON_Utils.c:122-156 | a token matches a name if and only if it is the encoding of a name that is the same in the mode, so that a tilde before anything but 0 and 1 matches nothing |
| JsonPointer.ComparePointers | libwstk/src/cJSON_Utils.c:122-156 | the loop decides whether a name matches the token that starts at a position and ends at the next slash or at the end |
| JsonPointer.EncodeNoSlash | libwstk/src/cJSON_Utils.c:175-198 | an encoded name holds no slash, and is empty only for the empty name |
| JsonPointer.EncodeJoins | libwstk/src/cJSON_Utils.c:175-198 | the encoding of a concatenation is the concatenation of the encodings |
| JsonPointer.EncodeCharacter | libwstk/src/cJSON_Utils.c:175-198 | a tilde becomes "~0", a slash "~1", and every other character stays as it is, as RFC 6901 section 3 asks |
| JsonPointer.FindPointer | libwstk/src/cJSON_Utils.c:200-261 | the search returns the pointer that spells the path of the target, or nothing when the target is not below the node |
| JsonPointer.DecodeArrayIndex | libwstk/src/cJSON_Utils.c:276-301 | the loop computes the index of a token, or rejects it |
| JsonPointer.DecodeDecimal | libwstk/src/cJSON_Utils.c:276-301 | the decimal digits of every index below 2^64 decode to that index |
| JsonPointer.IndexAccepted | libwstk/src/cJSON_Utils.c:276-301 | every index of RFC 6901 section 4 is accepted; beyond them exactly the empty token, and tokens with a first digit from 1 to 9 and other characters from zero upwards, are |
| JsonPointer.GetItemFromPointer | libwstk/src/cJSON_Utils.c:303-348 | the walk along the pointer reaches exactly the node that its tokens, taken one by one, lead to |
| JsonPointer.Descend | libwstk/src/cJSON_Utils.c:316-338 | a token leads to the array element of its index or to the first member whose name matches |
| JsonPointer.FindMember | libwstk/src/cJSON_Utils.c:328-333 | the search stops at the first member whose name matches the token |
| JsonPointer.SkipToken | libwstk/src/cJSON_Utils.c:340-344 | the loop stops at the next slash or at the end |
| JsonPointer.TokensAppend | libwstk/src/cJSON_Utils.c:303-348 | appending pointers appends their token lists |
| JsonPointer.PointerRoundTrip | libwstk/src/cJSON_Utils.c:200-348 | following the pointer of a node leads back to that very node if and only if no object on the way has an earlier member of the same name |
| JsonPointer.DistinctUnshadowed | libwstk/src/cJSON_Utils.c:200-348 | with distinct names throughout no node is shadowed, so every node is found again |
| JsonPatch.DecodePointerInplace | libwstk/src/cJSON_Utils.c:361-392 | the loop over the buffer leaves the text its specification gives: only escapes are rewritten, the slash of an escape one place too far |
| JsonPatchLaws.DecodeUndoesEncodeIff | libwstk/src/cJSON_Utils.c:175-392 | decoding in place undoes encoding if and only if the name has no slash and, wherever it has no tilde, its encoding has the same character in the same place |
| JsonPatchDecode.DecodedAt | libwstk/src/cJSON_Utils.c:361-392 | a name that is encoded and decoded in place keeps its length; each character comes out as a tilde where there was one, as a slash behind a slash, and as the character its encoding has in that place otherwise |
| JsonPatchDecode.DecodingAdvances | libwstk/src/cJSON_Utils.c:361-392 | a name that does not survive decodes to one whose first unstable character stands further on, so that decoding again and again ends and no name comes back |
| JsonPatchDecode.SafeFold | libwstk/src/cJSON_Utils.c:361-392 | whether a name survives does not depend on the case of its letters |
| JsonPatchLaws.PlainEncodesToItself | libwstk/src/cJSON_Utils.c:175-198 | a name without tilde and slash is its own encoding and survives decoding |
| NodeList.DetachAt | libwstk/src/cJSON_Utils.c:395-429 | the child at the index is returned and unlinked on both sides, the rest is a well-formed child list in the old order, and past the end nothing changes |
| JsonPatchLaws.DetachNamed | libwstk/src/cJSON_Utils.c:432-483 | detaching at the path of any name removes the first member that has, without regard to case and in either mode, the name that decoding makes of it, and returns its value; there is nothing to detach if and only if there is no such member |
| JsonPatchNames.RemoveOwnIff | libwstk/src/cJSON_Utils.c:432-483 | with distinct names, removing a member by its own pointer removes that very member if and only if no earlier member has its name without regard to case |
| JsonPatchNamesakes.NamesakesFirst | libwstk/src/cJSON_Utils.c:432-483 | of all members of a name without regard to case the first is detached, and the others stay in their order |
| JsonPatchLaws.DetachItem | libwstk/src/cJSON_Utils.c:432-483 | detaching at the path of an array element removes that element, closes the gap and returns it |
| Sorting.SortPermutes | libwstk/src/cJSON_Utils.c:486-595 | sort_list permutes its list |
| Sorting.SortOrders | libwstk/src/cJSON_Utils.c:486-595 | its result is in non-descending order of names in the mode |
| Sorting.SortStrict | libwstk/src/cJSON_Utils.c:486-595 | members with distinct names come out in strictly ascending order |
| NodeSort.IsAscending | libwstk/src/cJSON_Utils.c:500-509 | the walk decides whether a list is strictly ascending |
| NodeSort.FindMiddle | libwstk/src/cJSON_Utils.c:511-523 | of two pointers, one twice as fast, the slow one stops in the middle |
| NodeSort.Split | libwstk/src/cJSON_Utils.c:524-529 | cutting in front of a node gives two well-formed lists of the same nodes |
| NodeSort.MergeTurn | libwstk/src/cJSON_Utils.c:537-571 | a turn of the merge moves one node, keeps the links of all lists well-formed and keeps what the merge is going to be |
| NodeSort.MergeLists | libwstk/src/cJSON_Utils.c:534-592 | relinking two well-formed lists gives one well-formed list, which is their merge |
| NodeSort.SortHalves | libwstk/src/cJSON_Utils.c:531-594 | sorting both halves and merging them gives the merge of the sorted halves |
| NodeSort.SortList | libwstk/src/cJSON_Utils.c:486-595 | relinking in place gives a well-formed list of exactly the sorted sequence of the same nodes; the prev of the new head is its old one if the head is the same node, and NULL otherwise |
| NodeSort.SortObject | libwstk/src/cJSON_Utils.c:597-604 | whatever the prev of the head was, the object holds the sorted chain, and the prev of its head is NULL if the head changed and otherwise leads to the node it led to before, at its new place |
| NodeSort.SortThenAdd | libwstk/src/cJSON_Utils.c:597-604 | what a later append makes of an object that was sorted, once or again: all members and the new one if and only if the link of the head leads to the last member |
| BackLinks.IntactAfterSortIff | libwstk/src/cJSON_Utils.c:597-604 | after sorting, an append finds the last node if and only if the head stayed the head and its prev led to the node that is last now |
| BackLinks.TailAfterSort | libwstk/src/cJSON_Utils.c:597-604 | the prev of the head of a well-formed list leads to the tail after sorting if and only if both ends stayed where they were; otherwise it is NULL or cuts the list short |
| BackLinks.OrderSorts | libwstk/src/cJSON_Utils.c:486-595 | sorting a list is picking its elements in the order in which sorting puts their indices |
| JsonCompare.CompareJson | libwstk/src/cJSON_Utils.c:606-692 | the comparison decides its specification and leaves both documents as `Compared` says: the objects of every pair it came to are sorted, with the links of their heads as sorting leaves them, up to the first pair that differs |
| JsonCompare.CompareLists | libwstk/src/cJSON_Utils.c:637-655 | the loop over two arrays finds out whether they have the same length and all pairs agree, and changes the elements it came to only |
| JsonCompare.CompareRecords | libwstk/src/cJSON_Utils.c:657-684 | the loop over two sorted objects finds out whether names and values agree pairwise to the end of both, and changes the members it came to only |
| Json.CompareSortedDecides | libwstk/src/cJSON_Utils.c:606-692 | on trees with distinct names, sorting and comparing pairwise decides equality up to the order of members |
| JsonCompare.ComparedSame | libwstk/src/cJSON_Utils.c:606-692 | comparing changes a document up to the order of members only |
| JsonCompare.ComparedKeepsIff | libwstk/src/cJSON_Utils.c:606-692 | with distinct names, comparing changes nothing if and only if the members of every object it comes to are in order |
| JsonCompare.ComparedWholeIff | libwstk/src/cJSON_Utils.c:606-692 | of a document in its proper shape, comparing leaves every list in its shape if and only if every object it comes to keeps its first and its last member |
| JsonCompare.EndsStayIff | libwstk/src/cJSON_Utils.c:606-692 | with distinct names, an object keeps its first and its last member when sorted if and only if these are its smallest and its greatest name |
| NodeList.InsertAt | libwstk/src/cJSON_Utils.c:695-730 | the item is linked in front of the child at the index or behind the last one, and the result is the matching sequence insertion; past the end nothing changes and the call fails |
| JsonPatchLaws.ApplyComposed | libwstk/src/cJSON_Utils.c:809-1038 | applying a composed patch comes to detaching and adding at the path of its suffix, with status 13 when there is nothing to detach |
| JsonPatchLaws.ApplyAddMember | libwstk/src/cJSON_Utils.c:809-1038 | adding a member under a name that survives deletes the first member of that name in the mode, if there is one, and appends the new one to the object at the pointer; nothing else changes |
| JsonPatchLaws.ApplyRemoveMember | libwstk/src/cJSON_Utils.c:809-1038 | removing a member under a name that survives removes the first of that name without regard to case and changes nothing else, or fails with status 13 if there is none |
| JsonPatchLaws.ApplyReplaceMember | libwstk/src/cJSON_Utils.c:809-1038 | replacing a member removes the first of its name without regard to case, deletes another of its name in the mode, if there is one, and appends the new value under the name; it fails with status 13 if there is nothing to remove |
| JsonPatchLaws.ApplyReplaceItem | libwstk/src/cJSON_Utils.c:809-1038 | replacing an array element changes that element only |
| JsonPatchLaws.ApplyRemoveItem | libwstk/src/cJSON_Utils.c:809-1038 | removing an array element closes the gap |
| JsonPatchLaws.ApplyAppendItem | libwstk/src/cJSON_Utils.c:809-1038 | adding at "-" appends to the array |
| JsonPatchOperations.ApplyInsertItem | libwstk/src/cJSON_Utils.c:809-1038 | adding at an index up to the length inserts there and shifts the rest |
| JsonPatchOperations.CopyIsAddIff | libwstk/src/cJSON_Utils.c:907-1025 | a copy does what an add of the value at its source does, with the same status, if and only if its target is not the root |
| JsonPatchOperations.MoveIsRemoveThenAddIff | libwstk/src/cJSON_Utils.c:907-1025 | a move does what a remove at its source and an add of the removed value at its target do, if and only if its target is not the root |
| JsonPatchRuns.TestDecides | libwstk/src/cJSON_Utils.c:833-838 | a test at the pointer of a node has status 0 if and only if the given value equals the node up to the order of members; either way it leaves the document as comparing the node does, and equal to what it was |
| JsonPatchRuns.TestAnswers | libwstk/src/cJSON_Utils.c:833-838 | a test with any path has status 0 if and only if the path leads to a node, the patch has a value, and the two are equal up to the order of members; otherwise it has status 1, and a path that leads nowhere, or a test without a value, leaves the document as it was |
| JsonPatchRuns.AddKeepsMembersIff | libwstk/src/cJSON_Utils.c:1007-1019 | adding a new member to an object, whatever happened to it before, keeps all its members and puts the new one behind them if and only if the prev of its head leads to its last member |
| JsonPatchRuns.AddAfterTestIff | libwstk/src/cJSON_Utils.c:833-1019 | adding a new member to an object that a successful test has compared always reports success; the object keeps all its members and gets the new one if and only if its first and its last member stayed where they were; the rest of the document is as it was |
| JsonPatchOperations.AddThenRemoveMemberIff | libwstk/src/cJSON_Utils.c:809-1038 | adding a new member and removing it gives the document back if and only if no member has that name without regard to case |
| JsonPatchOperations.InsertThenRemoveItem | libwstk/src/cJSON_Utils.c:809-1038 | inserting an array element and removing it gives the document back |
| JsonPatchOperations.RemoveThenInsertItem | libwstk/src/cJSON_Utils.c:809-1038 | removing an array element and inserting it again gives the document back |
| JsonPatchOperations.ReplaceSucceedsIff | libwstk/src/cJSON_Utils.c:888-905 | below the root a replace succeeds if and only if there is a value to detach at the path and a value in the patch |
| JsonPatchStatus.EditSucceedsIff | libwstk/src/cJSON_Utils.c:809-1035 | a patch other than a test succeeds if and only if it has what its operation needs: something at its path to take away (remove, replace), a value and a place for it (add, replace), something at `from` and a place in what is left (copy, move); only remove, add and replace work on the root |
| JsonPatchStatus.DetachesIff | libwstk/src/cJSON_Utils.c:432-483 | a value can be taken away exactly when the last step of its path, behind the last slash, leads to an element or, in any case, a member |
| JsonPatchStatus.AddAnswers | libwstk/src/cJSON_Utils.c:966-1035 | an add has status 0 exactly when its last step comes from an object, or from an array with the hyphen or an index up to its length; 9 exactly when it comes from no node with children; 11 without an index, 10 with one beyond the end |
| JsonPatchStatus.MalformedAnswers | libwstk/src/cJSON_Utils.c:819-832 | a patch has status 2 exactly when its path is no string, and 3 exactly when it has a path but none of the six operations |
| JsonPatchStatus.RemoveAnswers | libwstk/src/cJSON_Utils.c:888-905 | a remove has status 13 exactly when there is nothing to take away |
| JsonPatchStatus.ReplaceAnswers | libwstk/src/cJSON_Utils.c:888-960 | a replace has status 13 when there is nothing to take away, else 7 when it has no value, else 0 |
| JsonPatchStatus.AdditionAnswers | libwstk/src/cJSON_Utils.c:943-1035 | an add has status 7 without a value, and otherwise the one its place gives |
| JsonPatchStatus.CopyAnswers | libwstk/src/cJSON_Utils.c:907-1035 | a copy has status 4 without `from`, 5 when nothing is there, and otherwise the one its place gives |
| JsonPatchStatus.MoveAnswers | libwstk/src/cJSON_Utils.c:907-1035 | a move has status 4 without `from`, 5 when there is nothing to take away, and otherwise the one its place gives in what is left |
| JsonPatchStatus.OperationNames | libwstk/src/cJSON_Utils.c:732-789 | operations and members are named as in RFC 6902 |
| JsonPatchStatus.AnswersAsEdit | libwstk/src/cJSON_Utils.c:809-1035 | on a document whose links have been spoilt the answer is the same, unless something is appended through a link to a node that has left its list |
| JsonPatchRuns.FailureKeepsDocumentIff | libwstk/src/cJSON_Utils.c:809-1038 | a patch that fails leaves the document as it was if and only if it is not a replace or a move that had already detached a value, and not a test that came to an object whose members were out of order |
| JsonPatchRuns.FirstFailure | libwstk/src/cJSON_Utils.c:1040-1096 | a failing list of patches has the outcome of its first failing patch on what the successful ones before it made |
| JsonPatchApply.ApplyPatches | libwstk/src/cJSON_Utils.c:1040-1096 | the loop applies the patches in order, on documents with their links, up to the first that fails, whose status it returns |
| JsonPatchApply.PatchIsEdit | libwstk/src/cJSON_Utils.c:809-1038 | on a document in its proper shape, a patch other than a test is the edit it asks for, with the same status, and leaves every list in its shape |
| JsonPatchApply.RunIsEdits | libwstk/src/cJSON_Utils.c:1040-1096 | the same for every run of patches without tests |
| JsonPatchLaws.ComposedMembers | libwstk/src/cJSON_Utils.c:1098-1136 | a composed patch can be read back: its operation, its path with the encoded suffix, and its value |
| JsonPatch.AppendPatches | libwstk/src/cJSON_Utils.c:1143-1281 | the generator appends exactly the patches its specification gives, and leaves earlier ones in place |
| JsonPatch.AppendItemPatches | libwstk/src/cJSON_Utils.c:1172-1215 | the three loops over two arrays: patches for the common prefix, removals at one index, additions at the end |
| JsonPatch.AppendAdditions | libwstk/src/cJSON_Utils.c:1208-1212 | the last loop adds every further element of the second array at the end |
| JsonPatch.AppendMemberPatches | libwstk/src/cJSON_Utils.c:1217-1276 | the loop over two sorted objects appends removals, additions and nested patches in name order |
| JsonPatchRoundTrip.PatchRoundTrip | libwstk/src/cJSON_Utils.c:809-1281 | for any two documents with distinct names in the mode used: applying, one by one, the patches created from them to the first succeeds at every step and gives a document equal to the second up to the order of members, if and only if, wherever objects are compared, every name that ends a path survives decoding and no removal takes the wrong one of several members whose names differ in case only |
| JsonPatchRuns.ApplyRoundTrip | libwstk/src/cJSON_Utils.c:809-1281 | the same for documents as they are linked, whose lists all keep their shape |
| JsonPatchRuns.CreatedNoTests | libwstk/src/cJSON_Utils.c:1143-1281 | no created patch is a test |
| JsonPatchRoundTrip.ApplyRemovals | libwstk/src/cJSON_Utils.c:1194-1207 | repeated removal at one index cuts the array there |
| JsonPatchRoundTrip.ApplyAdditions | libwstk/src/cJSON_Utils.c:1208-1212 | repeated addition at "-" appends the elements in order |
| JsonPatchRoundTrip.DiffItems | libwstk/src/cJSON_Utils.c:1172-1215 | the patches of two arrays, applied where the first one is, change nothing else, and make it equal to the second if and only if those of every common element do |
| JsonPatchRoundTrip.DiffMembers | libwstk/src/cJSON_Utils.c:1217-1276 | the patches of the object loop, from any point of it on, change nothing but the object at the pointer, and make it equal to the second if and only if what was done is right and the rest goes well |
| JsonPatchLoop.GoneStep | libwstk/src/cJSON_Utils.c:1260-1266 | removing a member takes the first namesake left: the loop keeps its invariant if and only if that one was to be removed or replaced, and otherwise a member that should stay is lost for good |
| JsonPatchLoop.ReplacedStep | libwstk/src/cJSON_Utils.c:888-905 | replacing a member takes the first namesake left and adds the member again: the loop keeps its invariant if and only if that one was to be removed or replaced and the member itself has been taken by then; otherwise a member is lost for good |
| JsonPatchLoop.LosingRun | libwstk/src/cJSON_Utils.c:1217-1276 | once a member that should stay, or one of too few namesakes, is lost, no later patch of the loop leads to the second object |
| JsonPatchMisled.EditAllInside | libwstk/src/cJSON_Utils.c:809-1038 | patches whose paths lead below a member change nothing but the value of the first member of that name |
| JsonPatchMisled.ChooseMark | libwstk/src/cJSON_Utils.c:1217-1276 | when a path ends in a name that does not survive there is always a member, or the absence of one, that every patch leaves alone and that the second object does not have |
| JsonPatchMisled.UnsafeEndSpoils | libwstk/src/cJSON_Utils.c:1217-1276 | whatever else the objects hold: when a path ends in a name that does not survive, the patches fail or do not lead to the second object |
| JsonPatchNames.CaselessUntangled | libwstk/src/cJSON_Utils.c:432-483 | between objects whose names are distinct without regard to case no removal takes the wrong member |
| JsonPatchNames.AddedNameSurvivesIff | libwstk/src/cJSON_Utils.c:1098-1281 | in either mode, a single added member arrives under its own name if and only if the name survives encoding and decoding |
| JsonPatchNames.CaseCollisionBreaks | libwstk/src/cJSON_Utils.c:432-483 | {"A":1,"a":2} to {"A":1} with regard to case: distinct names, and the patches do not lead to the second |
| MergePatch.ApplyMergePatch | libwstk/src/cJSON_Utils.c:1323-1381 | the loop over the members of the patch computes its specification |
| MergePatchLaws.MergeMembersByName | libwstk/src/cJSON_Utils.c:1323-1381 | name by name, as RFC 7396 section 2 asks, for any names distinct in the mode used: a null removes the member, anything else is merged into it, and names without a patch keep their value |
| MergePatchLaws.MergeMembersNames | libwstk/src/cJSON_Utils.c:1323-1381 | merging brings in no names but those of the patch |
| MergePatchLaws.MergeMembersExactly | libwstk/src/cJSON_Utils.c:1323-1381 | the same name by name with regard to case in either mode, as long as no name of the patch differs from one of the object in case only |
| MergePatchLaws.MergeFresh | libwstk/src/cJSON_Utils.c:1323-1381 | merging a patch with distinct names in the mode used where there is no object gives the patch itself if and only if it holds no null outside arrays |
| MergePatch.GenerateMergePatch | libwstk/src/cJSON_Utils.c:1393-1473 | the generator computes its specification |
| MergePatch.GenerateSorted | libwstk/src/cJSON_Utils.c:1418-1464 | the loop over two sorted objects computes its specification |
| MergePatch.GenerateForShared | libwstk/src/cJSON_Utils.c:1451-1458 | for a member of both objects the loop body computes its specification |
| MergePatchLaws.SharedPatchedIff | libwstk/src/cJSON_Utils.c:1451-1458 | a member of both objects gets a patch if and only if its values differ, wherever the two comparisons of names agree |
| MergePatchLaws.GenerateMembersByName | libwstk/src/cJSON_Utils.c:1418-1464 | name by name, for lists ascending with regard to case: null for a removed member, the value for a new one, the nested patch for a changed one, nothing otherwise |
| MergePatchLaws.GeneratedByName | libwstk/src/cJSON_Utils.c:1393-1473 | the same for the objects as they are given, wherever the comparison that sorts and the one that walks agree on their names |
| MergePatchLaws.NoPatchIffEqual | libwstk/src/cJSON_Utils.c:1393-1473 | no patch is generated if and only if both documents are objects and equal; for names on which the comparisons with and without regard to case have the same sign wherever the walk compares them |
| MergePatchLaws.MergeRoundTrip | libwstk/src/cJSON_Utils.c:1323-1473 | under the same condition, applying the generated patch in the mode that suits the names gives a document equal to the second if and only if the second has no null member that a merge patch cannot express |
| MergePatchLaws.DisagreementBreaks | libwstk/src/cJSON_Utils.c:1393-1473 | the condition is needed: for any two names on which the comparisons disagree there are documents over these names, without nulls, that the generated patch does not reach, in any modes |
| MergePatchLaws.AgreementDecides | libwstk/src/cJSON_Utils.c:1393-1473 | on all documents over two names, second documents without nulls are always reached if and only if the comparisons agree on the two names |
| MergePatchLaws.CaseMissed | libwstk/src/cJSON_Utils.c:1393-1473 | two names that differ in case only, three levels down: the change from the one to the other gets no patch, in either mode |
| MergePatchLaws.OrderMissed | libwstk/src/cJSON_Utils.c:1418-1464 | two names that the comparisons order differently: the walk runs past the second and removes what it should keep |
| MergePatchLaws.NoNullsRepresentable | libwstk/src/cJSON_Utils.c:1323-1473 | a second document without null members outside arrays is always reached |
| MergePatchLaws.UpperCaseBreaks | libwstk/src/cJSON_Utils.c:1393-1473 | {"a":1} to {"A":1} without regard to case: the generated patch empties the document |
| JsonParse.ParseBuffer.ParseNumber | libwstk/src/cJSON.c:307-381 | parse_number takes what strtod reads of the characters copied for it, and moves behind it |
| JsonParse.ParseBuffer.CopyNumber | libwstk/src/cJSON.c:320-353 | the loop copies the longest run of number characters, at most 63 of them |
| JsonPrint.PrintBuffer.constructor | libwstk/src/cJSON.c:1299-1316 | a new print buffer holds no text, and may grow unless it was given by the caller |
| JsonPrint.PrintBuffer.Ensure | libwstk/src/cJSON.c:446-529 | on success there is room for the octets asked for and one more, and the text printed so far is unchanged; it fails exactly when the buffer may not grow to that size |
| JsonPrint.PrintBuffer.UpdateOffset | libwstk/src/cJSON.c:532-542 | strlen lands exactly on the end of the text just printed |
| JsonPrint.PrintBuffer.PrintNumber | libwstk/src/cJSON.c:552-619 | an integer is printed as its decimal text |
| JsonString.ParseHex4 | libwstk/src/cJSON.c:622-655 | the loop computes the value of four hexadecimal digits, zero if one is none |
| JsonString.DigitsRead | libwstk/src/cJSON.c:622-655 | four hexadecimal digits of either case, most significant first, read as the number they stand for |
| JsonString.ParseUtf16 | libwstk/src/cJSON.c:659-777 | an escape, or a pair of them, is turned into the UTF-8 octets of its code point, as `EscapeReads` and `PairReads` say, and its length is returned; invalid ones write nothing |
| JsonString.EscapeReads | libwstk/src/cJSON.c:659-777 | the escape of every code point below 0x10000 that is no surrogate gives octets that decode to that code point |
| JsonString.PairReads | libwstk/src/cJSON.c:659-777 | the escapes of 0xD800 plus the upper and 0xDC00 plus the lower ten bits of a code point above that, less 0x10000, give octets that decode to that code point |
| JsonString.LoneSurrogateFails | libwstk/src/cJSON.c:659-720 | a low surrogate, and a high one without the escape of a low one behind it, are errors |
| JsonString.WriteUtf8 | libwstk/src/cJSON.c:722-770 | the octets written, last one first, are the UTF-8 encoding of the code point |
| JsonString.Utf8RoundTrip | libwstk/src/cJSON.c:722-770 | decoding those octets gives the code point back, for every code point |
| JsonString.Utf8Marks | libwstk/src/cJSON.c:722-770 | the octets bear the marks of RFC 3629 section 3, and no fewer would do |
| JsonString.LettersRead | libwstk/src/cJSON.c:835-866 | the escapes of one letter mean what RFC 8259 section 7 says, and there are no others |
| JsonString.BitForms | libwstk/src/cJSON.c:659-777 | the bit operations of the encoder are the additions and divisions of the specification |
| JsonString.OutputFits | libwstk/src/cJSON.c:793-884 | the second pass never writes beyond the allocation of the first, whatever escapes the text holds: from any point on, what is written and the terminator fit |
| JsonString.EscapesGrow | libwstk/src/cJSON.c:797-811 | the first pass counts at most one escape for every two octets |
| JsonParse.ParseBuffer.FindClosingQuote | libwstk/src/cJSON.c:797-815 | the first pass finds the closing quote, stepping over what follows a backslash, and counts the escapes |
| JsonParse.ParseBuffer.UnescapeInto | libwstk/src/cJSON.c:826-884 | the second pass writes exactly the unescaped octets into the allocation and leaves room for the terminator, or stops at the escape that is invalid |
| JsonParse.ParseBuffer.ParseString | libwstk/src/cJSON.c:780-906 | parse_string returns the string as C sees it and moves behind the closing quote, or moves to the place of the error |
| JsonSpelling.StringComplete | libwstk/src/cJSON.c:780-906 | what pieces spell, between two quotes, is read: octets other than quotes and backslashes stand for themselves, escapes for what they mean, up to the first NUL |
| JsonSpelling.StringIff | libwstk/src/cJSON.c:780-906 | a string is read if and only if it is spelled that way, as long as every backslash and u has four hexadecimal digits behind it |
| JsonSpelling.BadEscapeIsNul | libwstk/src/cJSON.c:622-683 | an escape with anything else in place of its digits is taken for a NUL |
| JsonPrint.ExtraCounts | libwstk/src/cJSON.c:936-960 | the counting pass gives exactly the octets escaping adds, and none means nothing is escaped |
| JsonPrint.CountEscapes | libwstk/src/cJSON.c:936-959 | its loop computes that count |
| JsonPrint.PrintBuffer.WriteEscapes | libwstk/src/cJSON.c:979-1023 | the writing loop emits exactly the escaped text and stays within the room |
| JsonPrint.PrintBuffer.PrintString | libwstk/src/cJSON.c:909-1028 | the string appears quoted and escaped behind the text printed so far; it fails exactly when that does not fit |
| JsonParse.ParseBuffer.SkipWhitespace | libwstk/src/cJSON.c:1045-1068 | the offset moves over octets up to 32, and stays on the last octet at the end of the buffer |
| JsonParse.ParseWithLength | libwstk/src/cJSON.c:1102-1179 | the whole parse: the value and where its text ends, or where the error is, clamped into the buffer |
| JsonPrint.Print | libwstk/src/cJSON.c:1194-1256 | printing yields exactly the rendered text with its terminator, in a buffer of exactly that size, for every tree without invalid nodes whose text fits an int |
| JsonPrint.PrintBuffered | libwstk/src/cJSON.c:1269-1297 | printing into a buffer that starts with any size yields the rendered text; a negative size is refused |
| JsonPrint.PrintPreallocated | libwstk/src/cJSON.c:1299-1316 | printing into the buffer of the caller succeeds if and only if there are two octets more than the text has, and then holds the text |
| JsonParse.ParseBuffer.ParseValue | libwstk/src/cJSON.c:1319-1371 | parse_value goes by the first octets and has the outcome of its specification, with the depth restored |
| JsonPrint.PrintBuffer.PrintValue | libwstk/src/cJSON.c:1374-1445 | a value appears rendered at the current depth behind the text printed so far; it fails exactly on invalid nodes and when the text does not fit |
| JsonParse.ParseBuffer.ParseArray | libwstk/src/cJSON.c:1448-1543 | parse_array has the outcome of its specification, the nesting limit included |
| JsonParse.ParseBuffer.ParseItems | libwstk/src/cJSON.c:1480-1520 | its loop reads elements between commas up to the closing bracket, in order |
| JsonPrint.PrintBuffer.PrintArray | libwstk/src/cJSON.c:1546-1605 | an array appears rendered, and the depth is restored |
| JsonPrint.PrintBuffer.PrintItems | libwstk/src/cJSON.c:1569-1593 | its loop prints the elements with their separators, in order |
| JsonParse.ParseBuffer.ParseObject | libwstk/src/cJSON.c:1608-1718 | parse_object has the outcome of its specification |
| JsonParse.ParseBuffer.ParseMembers | libwstk/src/cJSON.c:1638-1696 | its loop reads names, colons and values between commas up to the closing brace, in order |
| JsonGrammar.ReadsIff | libwstk/src/cJSON.c:1319-1718 | a value is read from one place to another if and only if the text between them is one in a grammar of words, numbers, strings, and values and members between brackets, commas and colons with white space anywhere around them, and it is not nested too deeply |
| JsonGrammar.ParsesIff | libwstk/src/cJSON.c:1102-1160 | a whole text is accepted, with a given value and end, if and only if it is an optional byte order mark, white space and a value nested at most 1000 deep, and, where a terminator is required, white space up to the NUL that ends the buffer |
| JsonGrammar.ErrorsAt | libwstk/src/cJSON.c:1319-1718 | an error is reported where no value starts, where a bracket or a brace stands too deep, behind the quote of a string that has no end, and at the last octet where the buffer ends behind a bracket or a brace |
| JsonGrammar.NumberIff | libwstk/src/cJSON.c:307-381 | a number is what strtod reads of the longest run, up to 63 characters, of digits, signs, points and the letter e in either case |
| JsonPrint.PrintBuffer.PrintObject | libwstk/src/cJSON.c:1721-1832 | an object appears rendered, and the depth is restored |
| JsonPrint.PrintBuffer.PrintMembers | libwstk/src/cJSON.c:1748-1812 | its loop prints the members with names, colons, commas and line ends, in order |
| JsonLayout.RenderClean | libwstk/src/cJSON.c:909-1832 | no printed text holds a control character, but tabs and line ends where it is formatted |
| JsonLayout.IntegerText | libwstk/src/cJSON.c:552-619 | an integer is its digits, behind a minus sign exactly when it is negative |
| Numerals.DecimalIs | libwstk/src/cJSON.c:552-619 | the digits stand for the number, with no zero in front |
| JsonLayout.MemberLine | libwstk/src/cJSON.c:1748-1790 | a formatted member stands behind as many tabs as it is deep, with a colon and a tab behind its name |
| JsonLayout.Separators | libwstk/src/cJSON.c:1546-1832 | what stands between elements and members, and around members, character by character |
| JsonTextRoundTrip.StringReads | libwstk/src/cJSON.c:780-1028 | a printed string reads back as itself, wherever in a text it stands |
| JsonTextRoundTrip.NumberReads | libwstk/src/cJSON.c:307-619 | a printed integer reads back as itself when no number character follows |
| JsonTextRoundTrip.ArrayReads | libwstk/src/cJSON.c:1448-1605 | a printed array reads back as itself if it is not nested too deeply, and is rejected otherwise |
| JsonTextRoundTrip.ObjectReads | libwstk/src/cJSON.c:1608-1832 | a printed object reads back as itself if it is not nested too deeply, and is rejected otherwise |
| JsonTextRoundTrip.ValueReads | libwstk/src/cJSON.c:1319-1445 | a printed value reads back as itself in any surroundings, at any depth that leaves it within the nesting limit, and is rejected at any other |
| JsonTextRoundTrip.PrintParse | libwstk/src/cJSON.c:1102-1832 | parsing a printed text gives the tree back, with the whole text read, if and only if the tree is nested at most 1000 deep; formatted or not |
| JsonTextRoundTrip.PrintParseExact | libwstk/src/cJSON.c:1102-1832 | the same when the buffer ends with the text and has no terminator |
| JsonTextRoundTrip.PrintThenParse | libwstk/src/cJSON.c:1086-1267 | calling the printer and then the parser returns the tree if and only if it is nested at most 1000 deep |
| NodeList.GetItem | libwstk/src/cJSON.c:1858-1875 | the walk returns the child at the index, or NULL past the end |
| Json.LookupFirst | libwstk/src/cJSON.c:1887-1917 | the member found is the first of its name, and none is found exactly when there is none |
| NodeList.ChildrenUnique | libwstk/src/cJSON.c:1858-1875 | the links of a child list determine the sequence of its nodes |
| NodeList.AddItem | libwstk/src/cJSON.c:1963-1994 | an append behind the node the prev of the head leads to: on a well-formed list the sequence append; otherwise what lies behind that node is cut off, or nothing is appended although the call succeeds |
| JsonLinks.WholeIsLift | libwstk/src/cJSON.c:1963-1994 | a document in which every link leads to the tail is determined by its JSON value |
| NodeList.DetachItem | libwstk/src/cJSON.c:2194-2228 | whatever the prev of the head was, the child is taken out, the rest is a well-formed chain in the old order, the prev of its head is the one `LinkAfterRemove` says, and the links of the child are cleared; NULL for a NULL parent or item |
| NodeList.InsertItem | libwstk/src/cJSON.c:2270-2302 | the item is linked in front of the child at the index, or appended past the end; negative indices and NULL fail and change nothing |
| NodeList.ReplaceItem | libwstk/src/cJSON.c:2304-2351 | the replacement takes the place of the child, at either end or in the middle, and the list stays well-formed |
| Json.CompareItems | libwstk/src/cJSON.c:2997-3120 | on two nodes that are not one and the same, the recursive comparison computes its specification |
| Json.CompareArrays | libwstk/src/cJSON.c:3055-3077 | the array loop finds out whether both arrays have the same length and all pairs agree |
| Json.CompareMembers | libwstk/src/cJSON.c:3083-3112 | the loop over one object finds out whether every member agrees with the first of its name in the other |
| Json.CompareLookupDecides | libwstk/src/cJSON.c:2997-3120 | on trees with distinct names and without invalid nodes, looking up every member of each in the other decides equality up to the order of members |
| Json.ComparisonsAgree | libwstk/src/cJSON.c:2997-3120 | on those trees the searching comparison and the sorting one of cJSON_Utils.c give the same answer |
| Json.RepeatedNamesDisagree | libwstk/src/cJSON.c:2997-3120 | {"x":1,"x":2}: the sorting comparison finds it equal to a copy of itself, the searching one does not |
| HashKeys.CToLowerIsToLower | libwstk/src/wstk-hashtable.c:103-108 | the branch-free lower case is tolower on every octet, and makes a NUL of a NUL only |
| HashKeys.HashIgnoresCase | libwstk/src/wstk-hashtable.c:497-507 | the case-insensitive hash of a key is the hash of the key in lower case |
| HashKeys.EqualKeysHashAlike | libwstk/src/wstk-hashtable.c:464-507 | keys the equality function takes for the same have the same hash, in all three modes |
| HashKeys.ComputeHash | libwstk/src/wstk-hashtable.c:484-507 | the loops over the key compute the specified hashes |
| HashKeys.Samples | libwstk/src/wstk-hashtable.c:464-507 | the hashes of a text, of the same text in capital letters, and of an integer, worked out |
| HashTable.Table.constructor | libwstk/src/wstk-hashtable.c:152-194 | a new table is empty, and its size is the first prime of the list above the size asked for |
| HashTable.Create | libwstk/src/wstk-hashtable.c:152-194 | a size above 2^30 is refused, any other gives an empty table |
| HashTable.Table.Expand | libwstk/src/wstk-hashtable.c:199-258 | growing keeps every binding in its right bucket and takes the next prime, by the copying plan or, when its allocation fails, by the in-place plan; it fails exactly when both allocations fail or the last prime is reached, and then changes nothing |
| HashTable.Table.Resize | libwstk/src/wstk-hashtable.c:211-252 | both plans keep the entries and put each into the bucket of its hash, and failing they change nothing |
| HashTable.CopyInto | libwstk/src/wstk-hashtable.c:216-227 | the copying plan moves every entry into the bucket of its hash in the new table |
| HashTable.RearrangeInPlace | libwstk/src/wstk-hashtable.c:238-251 | the in-place plan terminates with every entry in the bucket of its hash in the larger table, and keeps all entries |
| HashTable.RearrangeChain | libwstk/src/wstk-hashtable.c:241-250 | its inner loop moves exactly the entries of a chain that belong elsewhere, and what it moves behind the loop stays right |
| HashTable.TransferChain | libwstk/src/wstk-hashtable.c:219-224 | the inner loop of the copying plan empties one chain |
| HashTable.Table.CountsEntries | libwstk/src/wstk-hashtable.c:263-265 | the count is the number of entries in the chains |
| HashTable.SizesAgree | libwstk/src/wstk-hashtable.c:263-265 | a table that represents a map holds as many entries as the map has keys |
| HashTable.Table.RemoveFrom | libwstk/src/wstk-hashtable.c:270-301 | removal unbinds the key and keeps every other binding; the value is returned unless the table owns it |
| HashTable.Table.Unlink | libwstk/src/wstk-hashtable.c:281-294 | taking the matching entry out of its chain unbinds exactly its key |
| HashTable.Table.Insert | libwstk/src/wstk-hashtable.c:306-339 | insertion binds the key to the new entry and keeps every other binding, whether or not the table grows; when the entry cannot be allocated the old binding is gone as well |
| HashTable.Table.InsertNew | libwstk/src/wstk-hashtable.c:315-338 | the same for a key that is not bound |
| HashTable.Table.MakeRoom | libwstk/src/wstk-hashtable.c:315-322 | the table grows only above its limit, and it is no error if it cannot |
| HashTable.LoadLimitIs | libwstk/src/wstk-hashtable.c:185-185 | the limit is the smallest number of entries that fills 65 percent of the buckets |
| HashTable.Table.Push | libwstk/src/wstk-hashtable.c:330-336 | the new entry becomes the head of the chain of its hash |
| HashTable.Table.Find | libwstk/src/wstk-hashtable.c:344-361 | search returns the value bound to the key, or nothing exactly when the key is not bound |
| HashTable.Walk | libwstk/src/wstk-hashtable.c:344-361 | the walk stops at the first entry that matches |
| HashTable.Hit | libwstk/src/wstk-hashtable.c:344-361 | an entry found in the bucket of a key is the binding of that key |
| HashTable.Miss | libwstk/src/wstk-hashtable.c:344-361 | a key that is not found in its bucket is bound nowhere |
| HashTable.Table.Remove | libwstk/src/wstk-hashtable.c:366-369 | the same as removal with the hash of the key |
| HashTable.Iterator.Next | libwstk/src/wstk-hashtable.c:374-399 | the iterator moves to the next entry of the rest of the table, and ends exactly when there is none |
| HashTable.Collect | libwstk/src/wstk-hashtable.c:374-422 | the walk from the first entry on passes all chains in order |
| HashTable.Traverse | libwstk/src/wstk-hashtable.c:374-422 | a full iteration yields every binding of the map exactly once and nothing else |
| HashTable.IsEmpty | libwstk/src/wstk-hashtable.c:547-554 | a table is empty exactly when it binds no key |
| HashTable.Perform | libwstk/src/wstk-hashtable.c:306-369 | each public call answers as a map would and has the same effect on it |
| HashTable.PerformAll | libwstk/src/wstk-hashtable.c:152-369 | any run of insertions, removals and searches on a new table, in any mode, with any answers of the allocator, gives the answers of a map, and the count ends as the size of that map |
| Sha1Transform.SwapIsBigEndian | libwstk/src/wstk-sha1.c:31-43 | swapping a word read in little-endian order reads it in big-endian order |
| Sha1Transform.MixForms | libwstk/src/wstk-sha1.c:31-43 | the mixing of the macros is the mixing of RFC 3174 section 5 |
| Sha1Transform.MacroMixIsMix | libwstk/src/wstk-sha1.c:31-43 | the same for every round |
| Sha1Transform.ConstantsAreRoots | libwstk/src/wstk-sha1.c:31-43 | the four constants are the square roots of 2, 3, 5 and 10, times 2^30 |
| Sha1Transform.NextWord | libwstk/src/wstk-sha1.c:31-43 | the word written over the one sixteen rounds back is the word of the 80-word schedule, and the workspace holds the last sixteen words |
| Sha1Transform.Round | libwstk/src/wstk-sha1.c:31-43 | a round macro, which changes two of its arguments, is the step of RFC 3174 section 6.1 with the registers rotated |
| Sha1Transform.FiveRounds | libwstk/src/wstk-sha1.c:70-150 | five macro calls with rotated names are five steps, and the registers are back in place |
| Sha1Transform.Transform | libwstk/src/wstk-sha1.c:47-161 | 80 rounds over a circular workspace with rotated registers compute the state that the 80-word schedule with shifted registers gives |
| Sha1.CountedRight | libwstk/src/wstk-sha1.c:191-194 | the low word of the counter is always right, and the counter as a whole if and only if the carry test tells the truth |
| Sha1.LargeChunkMiscounted | libwstk/src/wstk-sha1.c:191-194 | a single chunk of 2^29 octets is counted as twice its bits |
| Sha1.Context.constructor | libwstk/src/wstk-sha1.c:168-176 | a new context is the state of the empty message |
| Sha1.Context.Update | libwstk/src/wstk-sha1.c:186-204 | after an update the state and the buffer are those of the longer message, and an exact counter stays exact if and only if the carry test tells the truth |
| Sha1.Context.Count | libwstk/src/wstk-sha1.c:191-194 | the counter words after an update |
| Sha1.Context.Absorb | libwstk/src/wstk-sha1.c:195-203 | copying and transforming leaves the state of all complete blocks and the incomplete block in the buffer |
| Sha1.Context.FullBlocks | libwstk/src/wstk-sha1.c:198-200 | the loop takes every complete block within the data |
| Sha1.Context.Final | libwstk/src/wstk-sha1.c:213-239 | with an exact counter the twenty octets of the digest are those of the fold of the compression function over the message padded as RFC 3174 section 4 asks |
| Sha1.WriteDigest | libwstk/src/wstk-sha1.c:224-226 | the loop writes twenty octets whose five words, most significant octet first, are the state |
| Sha1.LengthReads | libwstk/src/wstk-sha1.c:214-219 | the eight octets of the length field, read most significant first, are the counter |
| Digest.PaddedPads | libwstk/src/wstk-sha1.c:213-239 | the padded message is padded as both standards ask, with the length field at its end |
| Sha1.StandardPadding | libwstk/src/wstk-sha1.c:213-239 | the digest is the fold over the one message that continues the given one with a one bit, as few zeros as make it 56 octets modulo 64, and eight octets that, read most significant first, are its number of bits |
| Sha1Vector.AbcDigest | libwstk/src/wstk-sha1.c:47-239 | the digest of "abc" is a9993e36 4706816a ba3e2571 7850c26c 9cd0d89d, worked out through its padding, its schedule and all eighty rounds |
| Sha1.HashChunks | libwstk/src/wstk-sha1.c:168-239 | however a message is split into chunks below 2^29 octets, the octets of its digest are those RFC 3174 defines |
| Digest.FirstBlock | libwstk/src/wstk-sha1.c:195-197 | a block completed from the buffer is the next block of the message |
| Digest.DataBlock | libwstk/src/wstk-sha1.c:198-200 | a block taken from the data is the next block of the message |
| Digest.LastPart | libwstk/src/wstk-sha1.c:203 | what is left over is the incomplete block of the message |
| Digest.NoBlock | libwstk/src/wstk-sha1.c:202-203 | data that completes no block extends the incomplete block |
| BitCounter.Position | libwstk/src/wstk-sha1.c:190 | the low word of the counter gives the position in the block |
| BitCounter.BitLengthAdds | libwstk/src/wstk-sha1.c:190-194 | bit lengths add modulo 2^64 |
| Md5Transform.SetF | libwstk/src/wstk-md5.c:155-158 | a macro call of the first round is the operation of RFC 1321 section 3.4 with the registers rotated |
| Md5Transform.SetG | libwstk/src/wstk-md5.c:181-184 | the same for the second round |
| Md5Transform.SetH | libwstk/src/wstk-md5.c:207-210 | the same for the third round |
| Md5Transform.SetI | libwstk/src/wstk-md5.c:233-236 | the same for the fourth round |
| Md5Transform.RoundOneStart | libwstk/src/wstk-md5.c:152-168 | the first eight macro calls of the first round, with their words, distances and constants, are the first eight operations |
| Md5Transform.RoundOneEnd | libwstk/src/wstk-md5.c:168-176 | the same for the last eight of round one |
| Md5Transform.RoundTwoStart | libwstk/src/wstk-md5.c:178-193 | the same for the first eight of round two |
| Md5Transform.RoundTwoEnd | libwstk/src/wstk-md5.c:193-202 | the same for the last eight of round two |
| Md5Transform.RoundThreeStart | libwstk/src/wstk-md5.c:204-219 | the same for the first eight of round three |
| Md5Transform.RoundThreeEnd | libwstk/src/wstk-md5.c:219-228 | the same for the last eight of round three |
| Md5Transform.RoundFourStart | libwstk/src/wstk-md5.c:230-245 | the same for the first eight of round four |
| Md5Transform.RoundFourEnd | libwstk/src/wstk-md5.c:245-254 | the same for the last eight of round four |
| Md5Transform.Process | libwstk/src/wstk-md5.c:86-263 | the four rounds and the additions compute the state after the 64 operations of RFC 1321, on the words of the block in little-endian order |
| Md5Transform.WordOrder | libwstk/src/wstk-md5.c:152-254 | the rounds take the words of the block from word 0, 1, 5 and 0 on, in steps of 1, 5, 3 and 7 |
| Md5Vector.AbcDigest | libwstk/src/wstk-md5.c:86-328 | the digest of "abc" is 90015098 3cd24fb0 d6963f7d 28e17f72, worked out through its padding and all 64 operations |
| Md5.CountedRight | libwstk/src/wstk-md5.c:276-286 | the counter is the bit length modulo 2^64 after every chunk an int can count, although the shift of its length wraps around |
| Md5.Context.constructor | libwstk/src/wstk-md5.c:265-271 | a new context is the state of the empty message |
| Md5.Context.Append | libwstk/src/wstk-md5.c:273-307 | after an append the state, the buffer and the counter are those of the longer message |
| Md5.Context.Count | libwstk/src/wstk-md5.c:276-286 | the counter words after an append |
| Md5.Context.Absorb | libwstk/src/wstk-md5.c:288-306 | copying and processing leaves the state of all complete blocks and the incomplete block in the buffer |
| Md5.Context.FullBlocks | libwstk/src/wstk-md5.c:300-302 | the loop takes every complete block within the data |
| Md5.PadIsPadding | libwstk/src/wstk-md5.c:309-328 | the part of the padding array that is appended is the padding of RFC 1321 section 3.1 |
| Md5.Context.Final | libwstk/src/wstk-md5.c:309-328 | the sixteen octets of the digest are those of the fold of the compression function over the padded message, length field included |
| Md5.WriteDigest | libwstk/src/wstk-md5.c:326-327 | the loop writes sixteen octets whose four words, least significant octet first, are the state |
| Md5.LengthReads | libwstk/src/wstk-md5.c:318-320 | the eight octets of the length field, read least significant first, are the counter |
| Md5.StandardPadding | libwstk/src/wstk-md5.c:309-328 | the digest is the fold over the one message that continues the given one with a one bit, as few zeros as make it 56 octets modulo 64, and eight octets that, read least significant first, are its number of bits |
| Md5.RegistersStart | libwstk/src/wstk-md5.c:265-271 | the registers start with the octets 01 23 up to ef and fe dc down to 10, least significant first |
| Md5.AsIntIs | libwstk/src/wstk-md5.c:358-364 | a length is taken for its low 32 bits as a signed number |
| Md5.Context.Update | libwstk/src/wstk-md5.c:358-364 | the public function appends what the low 32 bits of the length say, read as an int: nothing when that is negative |
| Md5.LongChunkCut | libwstk/src/wstk-md5.c:358-364 | all octets are appended if and only if the length fits an int |
| Md5.HashChunks | libwstk/src/wstk-md5.c:265-328 | however a message is split into chunks an int can count, the octets of its digest are those of the fold RFC 1321 defines |
| Inet4.ParseInto | libwstk/src/wstk-net-util.c:41-80 | the loop accepts exactly the texts its specification accepts, and returns their octets |
| Inet4.Text4RoundTrip | libwstk/src/wstk-net-util.c:23-80 | the text of an IPv4 address reads back as that address |
| Inet4.Pton4Iff | libwstk/src/wstk-net-util.c:41-80 | a text is accepted, with the octets it stands for, if and only if it is four texts of octets with dots between them, each of one decimal digit or more that come to no more than 255 |
| Inet6.FindRun | libwstk/src/wstk-net-util.c:114-140 | the run chosen is the first longest run of zero words, and none is chosen if and only if no run has two words |
| Inet6.CompressedUnique | libwstk/src/wstk-net-util.c:114-140 | there is only one run that RFC 5952 section 4.2 allows to compress |
| Inet6.PrintWord | libwstk/src/wstk-net-util.c:146-170 | one turn of the loop writes a colon for the run, the embedded IPv4 address, or a word in hexadecimal |
| Inet6.Print6 | libwstk/src/wstk-net-util.c:142-176 | the loop writes the text its specification gives |
| Inet6.Ntop6 | libwstk/src/wstk-net-util.c:91-187 | the text, with the run of RFC 5952 compressed, is returned if and only if it and its terminator fit |
| Inet6Dotted.MappedText | libwstk/src/wstk-net-util.c:161-166 | an address of ten zero octets and two of 255 is printed as "::ffff:" and the IPv4 address of its last four octets |
| Inet6Dotted.CompatibleText | libwstk/src/wstk-net-util.c:161-166 | an address of twelve zero octets and two that are not both zero is printed as two colons and the IPv4 address of its last four octets |
| Inet6Dotted.DottedIff | libwstk/src/wstk-net-util.c:161-166 | the text holds a dot for these two kinds of addresses and for no others |
| Inet6.WordOrder | libwstk/src/wstk-net-util.c:109-112 | the first octet of a word is the more significant one |
| Numerals.HexDigitSpelled | libwstk/src/wstk-net-util.c:169-170 | hexadecimal digits are printed in lower case |
| Inet6RoundTrip.TextLength | libwstk/src/wstk-net-util.c:91-187 | the text has at most 45 characters |
| Inet6Parse.Shift | libwstk/src/wstk-net-util.c:272-285 | the shift by hand puts the octets behind the two colons at the end and zeros in between; in a full address it clears them instead |
| Inet6Parse.FinishInto | libwstk/src/wstk-net-util.c:264-292 | what follows the loop: the last word, the shift, and the test for sixteen octets |
| Inet6Parse.ParseWords | libwstk/src/wstk-net-util.c:221-292 | the loop with its restart at the last token accepts exactly the texts its specification accepts |
| Inet6Parse.ParseAddress | libwstk/src/wstk-net-util.c:202-293 | the same for the whole text, where a leading colon needs a second |
| Inet6Grammar.ParsesPieces | libwstk/src/wstk-net-util.c:221-292 | the loop over the characters does to the text what a loop over the pieces between its colons does |
| Inet6Grammar.Pton6Iff | libwstk/src/wstk-net-util.c:202-293 | a text is accepted, with the address it stands for, if and only if its pieces between colons are words of hexadecimal digits that fit 16 bits, the last may be an IPv4 address or empty, at most one other is empty, and the octets of all of them either come to sixteen or leave room that the zeros of two colons fill; a colon at the start needs a second |
| Inet6Parse.HexDigitReads | libwstk/src/wstk-net-util.c:221-236 | the hexadecimal digits of either case have their values, and there are no others |
| Inet6Parse.OctetOrder | libwstk/src/wstk-net-util.c:249-250 | a word is stored with its more significant octet first |
| Inet6RoundTrip.RoundTrip | libwstk/src/wstk-net-util.c:91-293 | every IPv6 address reads back from its text, with two colons in front, in the middle, at the end or alone, and with an embedded IPv4 address |
| Inet6RoundTrip.PrintThenParse | libwstk/src/wstk-net-util.c:91-293 | calling the printer, in the space it always fits, and then the parser returns the sixteen octets |
| Inet6RoundTrip.TrailingColonAccepted | libwstk/src/wstk-net-util.c:221-292 | behind any text without a dot that ends in a hexadecimal digit a trailing colon changes nothing, and behind any text with a dot it makes the address invalid |
| Inet6RoundTrip.ColonsClearWords | libwstk/src/wstk-net-util.c:202-293 | two colons between eight words are not ignored: the words behind them are cleared |
| Inet6RoundTrip.ColonsInFullAddress | libwstk/src/wstk-net-util.c:272-287 | they leave the address as it is if and only if everything behind them is zero |
| Base64.LetterValue | libwstk/src/wstk-base64.c:20-35 | each letter of the alphabet has its value, and none is the padding character |
| Base64.Alphabet | libwstk/src/wstk-base64.c:13-15 | the letters are those of RFC 4648 section 4 in its order: upper case, lower case, digits, a plus and a slash; and the padding is an equals sign |
| Base64.OtherAlphabet | libwstk/src/wstk-base64.c:20-35 | a hyphen and an underscore are read as a plus and a slash |
| Base64.Examples | libwstk/src/wstk-base64.c:40-72 | the examples of RFC 4648 section 10 |
| Base64.EncodeInto | libwstk/src/wstk-base64.c:40-71 | the loop writes exactly the encoding, 4 letters for every 3 octets begun, or refuses a buffer that is too small and leaves it alone |
| Base64.Encode | libwstk/src/wstk-base64.c:40-71 | the encoding has 4 letters for every group of 3 octets begun |
| Base64.DecodeInto | libwstk/src/wstk-base64.c:110-140 | the loop writes exactly the decoding, or refuses a buffer that is too small and leaves it alone |
| Base64.GroupBits | libwstk/src/wstk-base64.c:20-71 | the bits a decoder collects from an encoded group are the bits of its octets with the marks of its padding |
| Base64.GroupRoundTrip | libwstk/src/wstk-base64.c:110-140 | the marks of the padding in bits 24 and 30 leave exactly the octets that are there |
| Base64.RoundTrip | libwstk/src/wstk-base64.c:40-140 | decoding what was encoded gives it back, for every length |
| Base64.EncodeThenDecode | libwstk/src/wstk-base64.c:40-140 | calling the encoder and then the decoder returns the input |

## Left out

- JsonPatchRoundTrip.PatchRoundTrip: asks for names that are distinct in the mode used, on which the notion of equality rests, and for array indices below 2^64. The patches are applied to the first document as it was before they were created, or to a copy: `create_patches` leaves the objects it compared sorted, and an append to one of these does what `NodeSort.SortThenAdd` and `JsonPatchRuns.AddKeepsMembersIff` say.
- JsonPatch.AppendPatches: works on trees as values; the sorting it does in place, of the objects of both documents, is not captured.
- JsonPatchApply.ApplyPatches: a patch is a tree as a value; the sorting a test does to its value, aliasing between documents and patches, a list of patches that is not an array, and a move or a copy whose `from` is not a string are not captured. An append through a link to a node that has left its list has the status `UNDEFINED`.
- JsonPatchRuns.TestAnswers: asks for names that are distinct in the mode used, on which the notion of equality rests.
- JsonPatchOperations.CopyIsAddIff: the add it is compared with carries the value explicitly; the code gets it through `cJSON_Duplicate`, which is the identity on values. Like the other laws of single operations it is about documents in their proper shape.
- MergePatchLaws.MergeRoundTrip: asks for names on which the two comparisons agree wherever they are used; beyond that, `DisagreementBreaks` gives documents that fail for every pair of names, not for every pair of documents.
- MergePatchLaws.NoPatchIffEqual: the same condition on names.
- MergePatch.ApplyMergePatch: works on trees as values.
- MergePatch.GenerateMergePatch: works on trees as values; the sorting it does in place, of both documents, is not captured.
- Json.ComparisonsAgree: on trees with distinct names and without invalid nodes; otherwise the answers may differ, as `RepeatedNamesDisagree` shows.
- Json.CompareItems: `cJSON_Compare` returns true at once when both arguments are the same pointer; the model compares trees that share no node. It and the pointer functions work on trees as values, where a node is its path from the root.
- MultipartBody.RenderedBodyIsParsed: boundaries are ASCII and at most 70 characters long, header names are nonempty tokens, values hold no CR and do not start with a blank, contents hold no CR LF and two hyphens, and the preamble holds no two adjacent hyphens; the parser does not support more. Callbacks that stop it by a nonzero result are not modelled.
- MultipartShape.AcceptedIsClosed: one direction. That a body is accepted is `MultipartBody.RenderedBodyIsParsed`; a false boundary in its content can make the parser reject it.
- Multipart.Parser.Execute: plain `char` is taken to be signed, as on x86, so that boundary characters above 127 never match.
- JsonParse.ParseBuffer.ParseNumber: `strtod` is a parameter; the round trips assume only that it reads the decimal text of an int as that int. Numbers are ints: doubles, `sprintf("%1.15g")`, `compare_double` and the locale's decimal point are not modelled.
- JsonParse.ParseBuffer.ParseObject: after a comma that ends the buffer the code looks at the octet behind the buffer, in `parse_string`, before it fails; it fails whatever that octet is, and the model fails there without reading.
- JsonSpelling.StringIff: asks for four digits behind every backslash and u; where they are missing, the two passes of the code can disagree about where escapes begin.
- JsonGrammar.ErrorsAt: the positions of the errors that the code reports before it has read a whole value; where other errors are reported is what the reading functions say.
- JsonPrint.PrintBuffer.Ensure: growing by `realloc` only, not by the allocate-copy-free path for custom hooks.
- NodeSort.SortList: the names of nodes do not change; values of nodes play no part.
- HashTable.Table: chains are sequences instead of linked entries, keys are the strings and 32-bit integers of the three public table kinds, insertion always checks for duplicates as the public functions do, counters are unbounded, that the 26 sizes are prime numbers is not proved, and nothing depends on it, and the load limit is computed with the fraction 13/20 instead of the float 0.65f.
- HashTable.Iterator.Next: an iterator over a table that is changed meanwhile.
- Sha1.Context.Final: the wiping of the context.
- Md5Transform.Process: the words of a block are read as on a little-endian machine; whether the code copies the block first, and the loop for machines of the other order, are left out.
- Md5.CountedRight: `nbytes << 3` is a shift of a signed int, which C leaves undefined from 2^28 octets on; the model takes it to wrap around. So do `Append` and `HashChunks`.
- Md5.Context.Append: asks for at most 2^31 - 64 octets a call, because beyond that the sum of offset and length overflows an int, which C leaves undefined.
- Sha1.Context.Update: asks for fewer than 2^63 octets, more than memory holds.
- Base64.DecodeInto: lengths are those of a size_t that does not overflow; `wstk_base64_encode_str` and `wstk_base64_decode_str` only allocate around the modelled functions.
- The bit operations of the UTF-8 encoder, of the counters and of the address conversions are written as arithmetic; `JsonString.BitForms` relates the former.
- Allocation failures (except in the hash table), `cJSON_Delete`, hooks, references and Raw items.
- `cJSON_Minify` and the constructors and type tests of cJSON, which would only add easy members.
- Sockets, event loops, servers, HTTP, files, logging, threads and daemons: calls into the operating system.
- Lists, queues, strings, regular expressions, XML, CRC-32 and the other utilities of the library.
