# Algorithms with state, modelled and proved in Dafny

The repository is a collection of C and Java programs.  This project models the parts of it whose correctness
rests on invariants that are not visible in any one function, and proves what those parts are for.

* **Red-black tree** (`RbShape`, `RbTree`, `RbSet`).  The tree with parent pointers and colour bits is a memory
  of cells, and each method rewrites cells as the C code does.  The tree that the pointers form is a ghost value,
  and the cursor of a loop is a ghost context around a subtree, so that "one invariant is broken here and
  nowhere else" is one predicate.  `Insert`, `Erase` and the walks are proved for every tree; `Run` is the
  statement about every run of the example program's set.
* **AC-BM search** (`AcBmSpec`, `AcBm`).  A trie of folded patterns and two shift tables.  The tables are
  characterised exactly, no skip loses an occurrence, and the search equals a naive scan, whose matches are also
  stated letter by letter.
* **cJSON** (`JsonSpec`, `JsonNumbers`, `JsonString`, `JsonParse`, `JsonGrammar`, `JsonText`, `JsonPrint`,
  `JsonRoundTrip`, `JsonKnown`, `JsonMinify`, `JsonMinified`, `JsonFormatted`, `JsonBare`).  `JsonSpec` has the
  parser as recursive functions over a buffer that ends in a NUL, and what it means that a text shows a tree.
  The parser, the string unescaper, the growing print buffer and the in-place minifier are methods against that
  specification.  `JsonNumbers` and `JsonGrammar` describe numbers, strings and texts without it and prove
  that exactly these are accepted; `JsonFormatted` and `JsonBare` say what minifying leaves.
* **One-time-password state** (`StateText`, `StateBuffer`, `Numerals`, `LoginState`, `TimeSort`,
  `Authenticator`, `LoginRuns`, `LoginTimes`, `LoginKnown`, `RateFails`).  The state file as text, the option
  store that edits it in place, the rate limit with its comparator, the ban on reuse, the claims over whole runs
  of logins, and the acceptance of a code in seconds of the clock.
* **SHA-1** (`Sha1Spec`, `Sha1Rounds`, `Sha1Info`, `Sha1Digest`, `Sha1Known`).  `Sha1Spec` follows FIPS 180-4.
  Three forms of the rounds and two buffering machines, in C and in Java, compute it; `Sha1Known` has the
  published digest of "abc", ten rounds a lemma.
* **Smaller parts**: `BufferedReader` (mark and reset over a reader that delivers portions of any size), `Kmp`,
  `Base32` (with decoding in place; `Base32Known` has its alphabet) and `Uri` (splitting and rebuilding;
  `UriParts` has the parts).

A method is proved against a function that specifies it, and the lemmas are about that function.  `Bytes` holds
the type of bytes.  Names, alphabets and texts that a method and its specification share are stated once more
in characters, in the modules that end in `Known`.

Where the code does not keep what one would expect of it, a lemma has an input and another one the condition:

* An option that is new to a file of one unterminated line is lost (`StateText.OneLineLoses`,
  `StateText.UnsettableIsLost`); in all other cases it is kept (`StateText.SetThenGet`).
* An empty query or an empty fragment of a URI is lost (`Uri.LostMarks`, `Uri.RoundTrip`).
* cJSON_Minify reads past the terminator of a text with an open string or comment (`JsonMinify.Overrun`,
  `JsonMinify.StaysInside`).
* Leaving out a blank can put two slashes together (`JsonBare.Spliced`); `JsonBare.NoComment` has the condition,
  and a text that parses meets it (`JsonBare.AcceptedBare`).
* A `\u` escape with characters that are not hexadecimal digits is accepted as a NUL byte (`JsonString.EscapeMeans`).
* The comparator of the rate limit is no order for times 2^31 seconds apart (`TimeSort.CompareIsOrder`,
  `TimeSort.SortIsNumeric`).  With a far future time in the file the limit does not hold (`RateFails.TwoLogins`);
  with all times of a run less than 2^31 seconds apart it does (`LoginRuns.RateHolds`).  A clock below the
  interval counts nothing either (`RateFails.EarlyClock`).

The comment at `cjson/example/cJSON.h:152` asks for five bytes more than needed; `JsonPrint.PrintPreallocated`
shows that two bytes more than the text, its terminator included, are always enough.

Assumptions that the contracts make visible: a C string is a sequence without NUL, and a buffer is such a
sequence with a NUL behind it.  The clock, the entered code, the code of a time step and whether the state file
could be written are parameters.  The underlying reader of `BufferedReader` is an object that delivers at least
one character, as many as it chooses, until its text ends.

## Model

| member | source | states |
|---|---|---|
| RbTree.RbTree.constructor | rbtree/rbtree.h:143 | an empty tree |
| RbTree.RbTree.LinkNode | rbtree/rbtree.h:163-170 | hangs a red leaf into the hole a search ended in; no other cell changes but the parent that links to it |
| RbTree.RbTree.SetColor | rbtree/rbtree.h:128-141 | changes the colour bit of one node; no other cell of the memory changes |
| RbTree.RbTree.Rotate | rbtree/rbtree.c:26-70 | parent and child links stay consistent around the pair, the order of the nodes stays, every other cell of the tree is untouched; one member for both directions |
| RbShape.RotatedInorder | rbtree/rbtree.c:26-70 | a rotation does not change the in-order walk |
| RbShape.PushedBlack | rbtree/rbtree.c:83-91 | with a red uncle, blackness pushed down moves the only possible red-red edge two levels up and keeps walk and black heights |
| RbTree.RbTree.RotateUp | rbtree/rbtree.c:94-105 | with a black uncle, one or two rotations leave the cursor below a black node, nearer to the root than before; the walk stays |
| RbTree.RbTree.InsertColor | rbtree/rbtree.c:72-135 | after a red leaf was linked into a red-black tree the whole tree is red-black again and the walk is that of the tree with the leaf |
| RbShape.SiblingExists | rbtree/rbtree.c:147-155 | while a subtree lacks a black node its sibling `other` is never null |
| RbTree.RbTree.RaiseRedSibling | rbtree/rbtree.c:147-154 | a red sibling is rotated above the parent: the next sibling is black, the shortage stays where it was |
| RbTree.RbTree.PaintSibling | rbtree/rbtree.c:155-161 | two black nephews: the shortage moves to the parent, the walk stays |
| RbTree.RbTree.RaiseNearNephew | rbtree/rbtree.c:164-170 | only the near nephew red: afterwards the far nephew of the new sibling is red |
| RbTree.RbTree.RaiseSibling | rbtree/rbtree.c:171-176 | a red far nephew: one rotation ends the shortage and the whole tree is red-black |
| RbTree.RbTree.EraseColor | rbtree/rbtree.c:138-216 | started where exactly one black node is missing, it terminates with a red-black tree and the same walk |
| RbTree.RbTree.Supplant | rbtree/rbtree.c:228-263 | with two children the successor takes place, colour and links of the erased node, and its own place goes to its right child |
| RbShape.WithoutNode | rbtree/rbtree.c:218-283 | plugging in what remains takes exactly one node out of the walk |
| RbTree.RbTree.Erase | rbtree/rbtree.c:218-283 | erasing the node at any position of a red-black tree leaves a red-black tree with consistent links whose walk is the old one without exactly that node; cells outside the tree are untouched |
| RbTree.RbTree.End | rbtree/rbtree.c:289-312 | the first or the last node of the walk, NULL for an empty tree |
| RbTree.RbTree.Neighbour | rbtree/rbtree.c:315-365 | the node before or after in the walk, NULL at the ends; so `rb_prev` undoes `rb_next` |
| RbShape.HeightBound | rbtree/rbtree.c:72-135 | a red-black tree of n nodes is at most 2·log2(n+1) high |
| RbSet.OrderedSet.Search | rbtree/myrbtree.c:28-44 | finds a node with the key exactly if the key is in the set, in at most 2·log2(n+1) steps |
| RbSet.OrderedSet.Insert | rbtree/myrbtree.c:46-68 | a key that is there leaves every cell as it was and returns -1; otherwise exactly the new node enters the walk, which stays ascending and red-black |
| RbSet.OrderedSet.Delete | rbtree/myrbtree.c:70-80 | exactly the node with the key leaves walk and memory; without such a node nothing changes |
| RbSet.OrderedSet.Print | rbtree/myrbtree.c:82-90 | `rb_first` and then `rb_next` terminate and meet every key once, in the order of the walk |
| RbSet.OrderedWalk | rbtree/myrbtree.c:46-68 | an ordered tree has a strictly ascending walk |
| RbSet.OrderedSet.Apply | rbtree/myrbtree.c:92-130 | one insertion or deletion by a client has the effect it has on the set of keys |
| RbSet.OrderedSet.Run | rbtree/myrbtree.c:28-80 | after any run of insertions and deletions a search finds exactly the keys of the set that the run leaves |
| AcBm.PatternTree.Build | acbm/ac_bm_success/ac_bm.c:34-146 | the trie holds exactly the beginnings of the folded patterns, one node each, and a node is labelled with the last pattern that it spells |
| AcBm.GrowTrie | acbm/ac_bm_success/ac_bm.c:90-123 | hanging in one node keeps every link right, in both cases of letters, with `nchild` and `one_child` |
| AcBm.PatternTree.AddPattern | acbm/ac_bm_success/ac_bm.c:72-127 | one more pattern is in the trie; what was in it keeps its labels |
| AcBm.PatternTree.ComputeBadShifts | acbm/ac_bm_success/ac_bm.c:200-224 | every entry is exactly the smallest distance at which the character can meet a pattern, capped by the shortest length |
| AcBm.PatternTree.SetShift | acbm/ac_bm_success/ac_bm.c:229-249 | lowers the shift of the node that a beginning of a pattern spells, and of no other; -1 when there is none |
| AcBm.PatternTree.InitShifts | acbm/ac_bm_success/ac_bm.c:370-391 | all nodes below get the shift, upper-case links notwithstanding, and nothing else changes |
| AcBm.PatternTree.FirstShift | acbm/ac_bm_success/ac_bm.c:268-284 | the shift at the first node is lowered as far as the second pattern demands |
| AcBm.PatternTree.CompareAt | acbm/ac_bm_success/ac_bm.c:302-334 | for a place of the second pattern, every depth of the first that it makes plausible gets a shift no larger |
| AcBm.Compared | acbm/ac_bm_success/ac_bm.c:310-334 | how far a comparison runs decides exactly which depths a shift is plausible for |
| AcBm.PatternTree.ComputeShift | acbm/ac_bm_success/ac_bm.c:254-343 | all shifts that the second pattern makes plausible for the first one are taken into account |
| AcBm.PatternTree.ComputeGoodShifts | acbm/ac_bm_success/ac_bm.c:348-365 | every node has exactly its good shift: the least plausible one over all patterns, or the shortest length |
| AcBm.PatternTree.Init | acbm/ac_bm_success/ac_bm.c:406-437 | trie and both tables are right for any list of patterns, empty ones and an empty list included |
| AcBmSpec.OccurrencePlausible | acbm/ac_bm_success/ac_bm.c:628-636 | an occurrence that a shift would pass over makes a smaller shift plausible |
| AcBmSpec.GoodShiftSafe | acbm/ac_bm_success/ac_bm.c:628-636 | no position nearer than the good shift has a match |
| AcBmSpec.BadShiftSafe | acbm/ac_bm_success/ac_bm.c:630-636 | no position nearer than the bad-character shift has a match |
| AcBmSpec.StuckNothing | acbm/ac_bm_success/ac_bm.c:602-626 | where the walk ends no longer pattern matches |
| AcBmSpec.TooShort | acbm/ac_bm_success/ac_bm.c:588-591 | the search may start where the shortest pattern fits |
| AcBm.PatternTree.ScanAt | acbm/ac_bm_success/ac_bm.c:594-626 | at one position it reports what a naive scan does, by ascending length, as long as there is room |
| AcBm.PatternTree.Shift | acbm/ac_bm_success/ac_bm.c:628-646 | the shift is at least 1, and nothing that it passes over has a match |
| AcBm.PatternTree.Search | acbm/ac_bm_success/ac_bm.c:572-654 | for every text it terminates with exactly the naive list, cut to the room that there is; `AcBmSpec.LetterByLetter` says what is in that list without folding |
| AcBmSpec.Lists | acbm/ac_bm_success/ac_bm.c:572-654 | the naive list holds every occurrence of a non-empty pattern once, by descending offset and then ascending length |
| AcBmSpec.NoneMissed | acbm/ac_bm_success/ac_bm.c:602-618 | wherever any pattern occurs there is a match labelled with the last index among the patterns equal to it after folding |
| AcBmSpec.LastOfIs | acbm/ac_bm_success/ac_bm.c:126-127 | of equal patterns the last one gives the label |
| AcBmSpec.LetterByLetter | acbm/ac_bm_success/ac_bm.c:572-654 | a match is in the list exactly if each byte of its pattern is the byte of the text or the same letter in the other case, and no later pattern of that length stands there too |
| AcBmSpec.FoundLetterByLetter | acbm/ac_bm_success/ac_bm.c:572-654 | wherever a pattern stands, up to the case of letters, the list has a match of its length |
| JsonString.ParseHex4 | cjson/example/cJSON.c:493-526 | the value of four hexadecimal digits, zero if one is not a digit |
| JsonString.EscapeMeans | cjson/example/cJSON.c:540-591 | an escape with four hexadecimal digits is accepted with a code point and a length exactly if its digits, alone or as a surrogate pair, denote it; an escape with other characters in their place is accepted too, as a NUL byte |
| JsonString.EncodeUtf8 | cjson/example/cJSON.c:593-642 | writes the UTF-8 form of the code point and nothing in front of it |
| JsonString.Utf8Back | cjson/example/cJSON.c:593-642 | that form is well formed, the shortest possible, and decodes to the code point (section 3 of RFC 3629) |
| JsonString.Utf16ToUtf8 | cjson/example/cJSON.c:530-648 | consumes the escape and writes its UTF-8 form, or returns 0 |
| JsonString.MeasureString | cjson/example/cJSON.c:664-689 | where the string ends and how many escapes the first pass skips, or that it has no end |
| JsonString.SkippedStep | cjson/example/cJSON.c:668-682 | the first pass, however the two passes are aligned, counts at most one escape in two bytes |
| JsonString.StrideFits | cjson/example/cJSON.c:699-752 | every step of the second pass keeps the output inside what the first pass measured, malformed escapes included |
| JsonString.UnescapeInto | cjson/example/cJSON.c:697-755 | all writes and the terminator stay inside the allocation, and the result is the unescaped string |
| JsonParse.ParseBuffer.ReadString | cjson/example/cJSON.c:651-777 | accepts exactly the strings of the grammar with their contents, and ends behind the quote |
| JsonParse.ParseBuffer.SkipWhitespace | cjson/example/cJSON.c:916-934 | stops at the first byte that is not white space and never passes the terminator |
| JsonParse.ParseBuffer.ReadNumber | cjson/example/cJSON.c:219-293 | the number token that strtod takes from the run of number characters; `JsonNumbers.NumberRead` and `JsonNumbers.StrtodLongest` say which texts that are |
| JsonParse.ParseBuffer.ReadValue | cjson/example/cJSON.c:1149-1202 | accepts exactly what the recursive grammar does at this depth, with the same tree and end |
| JsonParse.ParseBuffer.ReadContainer | cjson/example/cJSON.c:1283-1374 | arrays and objects, within the nesting limit, as the grammar has them |
| JsonParse.ParseBuffer.ReadItem | cjson/example/cJSON.c:1495-1519 | a name, a colon and a value |
| JsonParse.ItemsTurn | cjson/example/cJSON.c:1472-1522 | one turn of the linking loop agrees with the recursive grammar, in the order of the items |
| JsonParse.ParseWithOpts | cjson/example/cJSON.c:937-1016 | the tree of the grammar and the place behind it, or none and an error position inside the text; `JsonGrammar.Language` says which texts have a tree |
| JsonNumbers.StrtodLongest | cjson/example/cJSON.c:219-293 | strtod converts exactly the longest decimal number that the text starts with, written down as a grammar |
| JsonNumbers.NumberRead | cjson/example/cJSON.c:219-293 | every number of section 6 of RFC 8259 of up to 63 bytes that no number character follows is read whole, wherever it stands |
| JsonNumbers.NumberCut | cjson/example/cJSON.c:227-238 | of more digits than 63 the first 63 are read |
| JsonGrammar.StringEndCloses | cjson/example/cJSON.c:664-689 | the first pass finds the first quote that no unescaped backslash stands in front of |
| JsonGrammar.StringRead | cjson/example/cJSON.c:651-777 | a string is read as the bytes that its characters and escapes stand for |
| JsonGrammar.HexIs | cjson/example/cJSON.c:493-526 | the hexadecimal digits, with letters of both cases |
| JsonGrammar.SyntaxStart | cjson/example/cJSON.c:1149-1202 | no value starts with white space or a closing bracket |
| JsonGrammar.RfcNumber | cjson/example/cJSON.c:219-293 | the numbers of the grammar are those of RFC 8259 and more |
| JsonGrammar.ValueReads | cjson/example/cJSON.c:1149-1202 | every value of the grammar, with any white space inside it, is parsed to its meaning at any place and depth within the limit |
| JsonGrammar.ValueFound | cjson/example/cJSON.c:1149-1202 | whatever is parsed in front of a delimiter is a value of the grammar with that meaning |
| JsonGrammar.TextRead | cjson/example/cJSON.c:937-1016 | every text of the grammar, with white space around it, is accepted with its tree |
| JsonGrammar.Language | cjson/example/cJSON.c:937-1016 | on every C string: it is accepted with a tree if and only if it is a text of the grammar, nested up to 1000 deep, whose meaning is that tree |
| JsonGrammar.PrefixRead | cjson/example/cJSON.c:937-1016 | without the demand for a terminator anything may follow the value that does not go on with a number |
| JsonRoundTrip.NumberBack | cjson/example/cJSON.c:219-293 | a printed number token is read back whole |
| JsonRoundTrip.EscapeByteBack | cjson/example/cJSON.c:860-892 | each escape that is printed is read back as its byte |
| JsonRoundTrip.StringBack | cjson/example/cJSON.c:780-899 | a printed string is read back |
| JsonRoundTrip.ValueBack | cjson/example/cJSON.c:1205-1280 | a printed value, formatted or not, at any place of a text and any indentation, is read back up to its end |
| JsonRoundTrip.ElementsBack | cjson/example/cJSON.c:1377-1436 | printed elements are read back in order |
| JsonRoundTrip.MembersBack | cjson/example/cJSON.c:1548-1659 | printed members are read back in order, duplicate keys included |
| JsonRoundTrip.RoundTrip | cjson/example/cJSON.c:937-1016 | parsing a text that shows a printable tree, formatted or not, nested at most 1000 deep, gives that tree |
| JsonPrint.PrintBuffer.Ensure | cjson/example/cJSON.c:326-411 | succeeds exactly when the bytes and a terminator fit the limit (INT_MAX, or the given buffer); then there is that room and what was written is kept |
| JsonPrint.PrintBuffer.UpdateOffset | cjson/example/cJSON.c:414-424 | moves on to the terminator |
| JsonPrint.PrintBuffer.PrintNumber | cjson/example/cJSON.c:427-490 | the token stands at the offset, terminated |
| JsonPrint.PrintBuffer.CountEscapes | cjson/example/cJSON.c:807-830 | counts exactly the bytes that escaping adds |
| JsonPrint.PrintBuffer.PrintStringPtr | cjson/example/cJSON.c:780-899 | the quoted and escaped string is written inside what was reserved, terminated; it fails only when it does not fit |
| JsonPrint.PrintBuffer.PrintArray | cjson/example/cJSON.c:1377-1436 | the text of the array, inside what was reserved piece by piece |
| JsonPrint.PrintBuffer.PrintObject | cjson/example/cJSON.c:1548-1659 | the text of the object with its indentation, inside what was reserved piece by piece |
| JsonPrint.PrintBuffer.PrintValue | cjson/example/cJSON.c:1205-1280 | the text of any tree stands from the offset on with a terminator behind it; what was before stays; it succeeds whenever text and two bytes fit |
| JsonText.ValueSame | cjson/example/cJSON.c:326-411 | a text keeps its meaning when the buffer grows or is written behind it |
| JsonText.ValueNoNul | cjson/example/cJSON.c:414-424 | a printed text has no NUL in it, so that strlen finds its end |
| JsonPrint.PrintedBack | cjson/example/cJSON.c:1129-1146 | parsing the C string left in a buffer gives the tree back |
| JsonPrint.Print | cjson/example/cJSON.c:1026-1097 | prints every printable tree that fits INT_MAX, to a NUL-free text of the exact length, which parses to the tree |
| JsonPrint.PrintBuffered | cjson/example/cJSON.c:1099-1127 | the same text, whatever the first size of the buffer |
| JsonPrint.PrintPreallocated | cjson/example/cJSON.c:1129-1146 | the same text without ever writing outside the buffer; two bytes more than the text are enough |
| JsonKnown.FormattedText | cjson/example/cJSON.c:1548-1658 | the formatted text of a tree with an array and an object inside an object, character by character |
| JsonKnown.ByteShown | cjson/example/cJSON.c:780-898 | which bytes of a string are written as themselves, with a letter, or with four hexadecimal digits |
| JsonMinify.StaysInside | cjson/example/cJSON.c:2407-2462 | for every C string: the loop never leaves the text if and only if every string and every comment in it has an end |
| JsonMinify.Overrun | cjson/example/cJSON.c:2434-2455 | a quote alone and the start of a comment alone make the loop leave the text |
| JsonMinify.Minify | cjson/example/cJSON.c:2398-2466 | on exactly those C strings, in place: what is left is the text without blanks and comments, and the write position never passes the read position; `JsonBare.LeaveMeans` says what is left out, and `JsonFormatted.FormattedMinifies` what is left |
| JsonMinify.Turn | cjson/example/cJSON.c:2407-2462 | one turn of the loop keeps what is unread and extends what is written |
| JsonMinified.StringSim | cjson/example/cJSON.c:2443-2456 | a string is copied whole and parses alike where it is copied to, malformed escapes included |
| JsonMinified.NumberSim | cjson/example/cJSON.c:2457-2461 | a number of an accepted text is copied whole and parses alike |
| JsonMinified.ValueSim | cjson/example/cJSON.c:1149-1202 | a value parses to the same tree at the place that it is moved to |
| JsonMinified.AcceptedCloses | cjson/example/cJSON.c:2398-2466 | every accepted text meets what the loop needs: its strings and comments end |
| JsonMinified.MinifiedParses | cjson/example/cJSON.c:2398-2466 | the minified text of an accepted text is accepted, has the same tree, and is left alone by minifying again |
| JsonFormatted.FormattedMinifies | cjson/example/cJSON.c:2398-2466 | for every printable tree: minifying its formatted text gives its unformatted text, and nothing else |
| JsonFormatted.OneResult | cjson/example/cJSON.c:2398-2466 | what is left of a text is determined by it |
| JsonBare.LeaveMeans | cjson/example/cJSON.c:2409-2442 | left out is exactly one white space character, a comment up to its line break, or a comment up to the first end mark |
| JsonBare.NoWhite | cjson/example/cJSON.c:2398-2466 | whatever the text, its result has no blank, tab or line break outside strings |
| JsonBare.NoComment | cjson/example/cJSON.c:2398-2466 | the result has no comment outside strings if and only if no slash comes to stand in front of a slash or a star because what was between them is left out |
| JsonBare.Spliced | cjson/example/cJSON.c:2409-2442 | a text of two slashes with a blank between them gets a comment |
| JsonBare.CompactNoComment | cjson/example/cJSON.c:2398-2466 | a text that minifying leaves alone has no comment outside strings |
| JsonBare.AcceptedBare | cjson/example/cJSON.c:2398-2466 | the result of a text that parses has neither white space nor a comment outside strings |
| StateBuffer.StateBuffer.GetCfgValue | google-authenticator/libpam/pam_google_authenticator.c:514-539 | the value of the first line for the key, without the blanks in front, or none |
| StateBuffer.StateBuffer.FindLine | google-authenticator/libpam/pam_google_authenticator.c:547-561 | the first line for the key, or that there is none |
| StateBuffer.StateBuffer.Splice | google-authenticator/libpam/pam_google_authenticator.c:570-603 | the new line replaces the old one, whether the buffer shrinks, grows or keeps its size |
| StateBuffer.StateBuffer.DeleteOthers | google-authenticator/libpam/pam_google_authenticator.c:605-622 | exactly the later lines for the key are taken out |
| StateBuffer.StateBuffer.SetCfgValue | google-authenticator/libpam/pam_google_authenticator.c:541-625 | the buffer holds the text that the line-wise rewriting `Set` gives |
| StateText.SetThenGet | google-authenticator/libpam/pam_google_authenticator.c:541-625 | if the option is there or the first line ends: the value reads back without blanks in front, exactly one line for the key is left, all other lines stay in order |
| StateText.SetThenGetOther | google-authenticator/libpam/pam_google_authenticator.c:541-625 | every other key reads back as before |
| StateText.SecretStays | google-authenticator/libpam/pam_google_authenticator.c:563-568 | the first line, which holds the secret, stays first and as it is |
| StateText.UnsettableIsLost | google-authenticator/libpam/pam_google_authenticator.c:563-568 | in the remaining case, a single line without an end, the new option is lost; so the condition of `StateText.SetThenGet` is exact |
| StateText.OneLineLoses | google-authenticator/libpam/pam_google_authenticator.c:563-568 | one such file: a single letter without a line end |
| StateText.OptionLineFor | google-authenticator/libpam/pam_google_authenticator.c:597-603 | a written line is for its own key and no other |
| StateText.LinesWellFormed | google-authenticator/libpam/pam_google_authenticator.c:548-561 | the lines of a text put together are the text |
| StateText.LinesOfJoin | google-authenticator/libpam/pam_google_authenticator.c:548-561 | well-formed lines put together split into the same lines |
| Numerals.DecimalBack | google-authenticator/libpam/pam_google_authenticator.c:928-931 | a printed int is read back by strtoul, whatever follows but a digit |
| LoginState.RateBack | google-authenticator/libpam/pam_google_authenticator.c:654-741 | the rate-limit option that is written is read back with its limit and every time |
| LoginState.EntriesSplit | google-authenticator/libpam/pam_google_authenticator.c:919-961 | a list of steps cut between two entries reads as its parts |
| LoginState.KeepMembers | google-authenticator/libpam/pam_google_authenticator.c:953-960 | pruning keeps exactly the steps closer to the current one than the window |
| Authenticator.ReadRate | google-authenticator/libpam/pam_google_authenticator.c:654-707 | limit, interval and times of the option, or that it is invalid |
| Authenticator.Prune | google-authenticator/libpam/pam_google_authenticator.c:714-722 | the stretch of the list that the loop keeps, for a list in any order |
| TimeSort.CompareIsOrder | google-authenticator/libpam/pam_google_authenticator.c:509-511 | the comparator, an unsigned difference as an int, tells which of two times is earlier if and only if they are less than 2^31 apart |
| TimeSort.SortIsNumeric | google-authenticator/libpam/pam_google_authenticator.c:713 | every arrangement that the comparator accepts is in numeric order if and only if all times are less than 2^31 apart |
| TimeSort.OneArrangement | google-authenticator/libpam/pam_google_authenticator.c:713 | for such times there is one arrangement only, so that the result does not depend on how qsort works |
| TimeSort.PrunedSorted | google-authenticator/libpam/pam_google_authenticator.c:714-722 | of sorted times the loop keeps exactly those in the interval |
| Authenticator.RateLimit | google-authenticator/libpam/pam_google_authenticator.c:643-762 | for any arrangement that the sort may choose: it stores the newest of the times that are kept, denies when they are more than the limit, and denies a malformed option |
| Authenticator.LimitIsFunction | google-authenticator/libpam/pam_google_authenticator.c:643-762 | with times less than 2^31 apart there is exactly one outcome |
| Authenticator.RateKeepsAll | google-authenticator/libpam/pam_google_authenticator.c:745 | the rate limit leaves ban, window, skew and counter as they were |
| Authenticator.WindowSize | google-authenticator/libpam/pam_google_authenticator.c:863-891 | 3 without the option, its value from 1 to 100, and 0 when it is invalid |
| Authenticator.PruneSteps | google-authenticator/libpam/pam_google_authenticator.c:919-961 | editing the list in place drops exactly the old entries; it refuses a malformed list and one that has the step |
| Authenticator.InvalidateTimebasedCode | google-authenticator/libpam/pam_google_authenticator.c:897-985 | without the option nothing changes; a step in the list is refused and the state is kept; otherwise the pruned list with the step is stored |
| Authenticator.CheckTimebasedCode | google-authenticator/libpam/pam_google_authenticator.c:1149-1188 | the first step of the window whose code matches decides, and it has to pass the ban on reuse; `LoginTimes.StepInTime` says which step that is, in seconds |
| Authenticator.Login | google-authenticator/libpam/pam_google_authenticator.c:1350-1361 | without a positive counter, a login grants a step only after rate limit, code and ban on reuse, and only if the new state was written |
| LoginKnown.KeyNames | google-authenticator/libpam/pam_google_authenticator.c:628-1166 | the names of the options, in characters |
| LoginKnown.LineWritten | google-authenticator/libpam/pam_google_authenticator.c:597-603 | an option line is a quote, a space, the name, a space, the value and a line feed |
| LoginKnown.LineRead | google-authenticator/libpam/pam_google_authenticator.c:514-537 | the value of a line is what stands behind any blanks and tabs, up to the first line end |
| LoginKnown.NewOption | google-authenticator/libpam/pam_google_authenticator.c:563-568 | a new option goes behind the first line, and nothing else moves |
| LoginKnown.ReplacedInPlace | google-authenticator/libpam/pam_google_authenticator.c:547-622 | an option that is there keeps its place, and later lines for it go |
| LoginKnown.NumberRead | google-authenticator/libpam/pam_google_authenticator.c:657-677 | strtoul reads white space, a sign and digits, and nothing without digits or beyond 64 bits |
| LoginKnown.LongIs | google-authenticator/libpam/pam_google_authenticator.c:627-641 | strtol stops at the limits of 64 bits |
| LoginKnown.ToIntIs | google-authenticator/libpam/pam_google_authenticator.c:657-664 | a conversion to int keeps the value modulo 2^32 |
| LoginKnown.DecimalIs | google-authenticator/libpam/pam_google_authenticator.c:737-742 | numbers are written in decimal digits |
| LoginKnown.RateRange | google-authenticator/libpam/pam_google_authenticator.c:657-668 | a rate limit is taken exactly from 1 to 100 attempts in 1 to 3600 seconds |
| LoginKnown.FileRead | google-authenticator/libpam/pam_google_authenticator.c:514-537 | in a file given in characters: the value of its RATE_LIMIT line, the limit that it stands for, and its mark of time-based codes |
| LoginTimes.WindowMeans | google-authenticator/libpam/pam_google_authenticator.c:863-889 | a window of 1 to 100 steps in digits is taken, every other number is invalid |
| LoginTimes.StepInTime | google-authenticator/libpam/pam_google_authenticator.c:1149-1188 | whichever codes the steps have: a code is taken for step g if and only if g is the first step with it of those in time, in seconds of the clock |
| LoginTimes.AcceptedAround | google-authenticator/libpam/pam_google_authenticator.c:1149-1188 | without options a code of step g alone is accepted if and only if the clock is from 30g-30 to 30g+60 seconds, the end excluded |
| LoginTimes.AcceptedShifted | google-authenticator/libpam/pam_google_authenticator.c:1165-1185 | the same with TIME_SKEW and WINDOW_SIZE given in digits |
| LoginTimes.GrantedInTime | google-authenticator/libpam/pam_google_authenticator.c:1537-1544 | a whole login with DISALLOW_REUSE alone: the step is granted if and only if the code comes in its time, the step is not listed, and the file can be written |
| LoginTimes.PassesLimit | google-authenticator/libpam/pam_google_authenticator.c:643-762 | with times less than 2^31 apart an attempt passes if and only if fewer attempts than allowed are recorded from the start of the interval on |
| LoginRuns.NoCounter | google-authenticator/libpam/pam_google_authenticator.c:627-641 | in a run that starts without a positive counter no login ever has one |
| LoginRuns.LoginMeans | google-authenticator/libpam/pam_google_authenticator.c:1537-1544 | with DISALLOW_REUSE and whatever the rate limit came to: a step is granted if and only if rate limit, window, list and write allow it; what is then in the file |
| LoginRuns.PrunedIsPast | google-authenticator/libpam/pam_google_authenticator.c:953-957 | a step that the window test drops can never be in the acceptance range again |
| LoginRuns.SpentStays | google-authenticator/libpam/pam_google_authenticator.c:897-985 | a spent step is not granted and stays spent |
| LoginRuns.NoReplay | google-authenticator/libpam/pam_google_authenticator.c:1149-1188 | in every run with DISALLOW_REUSE and a clock that does not go back, whatever the sort of the rate limit chooses, no time step is granted twice (section 5.2 of RFC 6238) |
| LoginRuns.RecentCounts | google-authenticator/libpam/pam_google_authenticator.c:711-729 | cutting the list to the newest times loses no count up to the limit, if the times are less than 2^31 apart |
| LoginRuns.LimitMeans | google-authenticator/libpam/pam_google_authenticator.c:643-762 | with times less than 2^31 apart: the stored option has the same limit and interval, and the login goes on exactly if the recent times are within the limit |
| LoginRuns.StoredCounts | google-authenticator/libpam/pam_google_authenticator.c:643-762 | in a run whose clock and first file span less than 2^31 seconds, the stored times always account for the granted logins of the last interval, up to the limit |
| LoginRuns.RateHolds | google-authenticator/libpam/pam_google_authenticator.c:643-762 | in every run with a clock that does not go back and a span below 2^31 seconds, any closed interval of the configured length has at most the configured number of granted logins |
| RateFails.EarlyClock | google-authenticator/libpam/pam_google_authenticator.c:711-729 | while the clock is below the interval its start wraps around, and nothing is counted |
| RateFails.CountedExactly | google-authenticator/libpam/pam_google_authenticator.c:711-722 | with one time in the file a login is sure to be counted if and only if that time is less than 2^31 away |
| RateFails.NothingCounted | google-authenticator/libpam/pam_google_authenticator.c:711-744 | times more than 2^31 ahead of the clock: the login is let through, and its time and all others are dropped |
| RateFails.TwoLogins | google-authenticator/libpam/pam_google_authenticator.c:711-744 | a file with the limit `1 30 4294967295`: two logins are granted within a second |
| Sha1Spec.F1IsCh | google-authenticator/libpam/sha1.c:63-67 | the first round function is Ch of FIPS 180-4 |
| Sha1Spec.F3IsMaj | google-authenticator/libpam/sha1.c:63-67 | the third one is Maj |
| Sha1Known.RoundConstants | google-authenticator/libpam/sha1.c:69-73 | the constants are the whole parts of 2^30 times the square roots of 2, 3, 5 and 10 |
| Sha1Known.ScheduleFollows | google-authenticator/libpam/sha1.c:170-173 | every word of the schedule follows from four before it, one bit rotated |
| Sha1Known.KnownAnswer | google-authenticator/libpam/sha1.c:220-327 | the digest of "abc" is the published one, byte for byte |
| Sha1Rounds.FIsMix | google-authenticator/mobile/blackberry/src/org/bouncycastle/crypto/digests/SHA1Digest.java:150-172 | the Java round functions f, h and g are those of the standard |
| Sha1Rounds.GenericRounds | google-authenticator/libpam/sha1.c:204-214 | the FG loops compute the 80 rounds of section 6.1.2 of FIPS 180-4 |
| Sha1Rounds.UnraveledRounds | google-authenticator/libpam/sha1.c:86-193 | so does the form with six rotating registers, whose result is in E, T, A, B and C |
| Sha1Rounds.FiveStepRounds | google-authenticator/mobile/blackberry/src/org/bouncycastle/crypto/digests/SHA1Digest.java:194-293 | so does the Java form that takes five steps in a turn |
| Sha1Info.Sha1Info.Expand | google-authenticator/libpam/sha1.c:120-173 | the big-endian words of the block and the schedule of 80 words |
| Sha1Info.Sha1Info.Transform | google-authenticator/libpam/sha1.c:106-216 | either form compresses the block into the digest |
| Sha1Info.Sha1Info.CountBits | google-authenticator/libpam/sha1.c:241-246 | the two words are always 8 times the bytes modulo 2^64, carry included |
| Sha1Info.CountIs | google-authenticator/libpam/sha1.c:306-308 | the byte count modulo 64 that sha1_final takes from the low word is right, and the words are the length field |
| Sha1Info.Sha1Info.FillUp | google-authenticator/libpam/sha1.c:247-261 | a started block is filled up |
| Sha1Info.Sha1Info.TakeBlocks | google-authenticator/libpam/sha1.c:262-269 | whole blocks are compressed and the rest is kept |
| Sha1Info.Sha1Info.Update | google-authenticator/libpam/sha1.c:236-270 | the context is that of the message so far, `local` being its length modulo 64 |
| Sha1Info.ShortPadding | google-authenticator/libpam/sha1.c:308-317 | padding inside the last block is that of section 5.1.1 of FIPS 180-4 |
| Sha1Info.LongPadding | google-authenticator/libpam/sha1.c:308-317 | so is padding that takes a block more |
| Sha1Info.Sha1Info.Final | google-authenticator/libpam/sha1.c:301-327 | however the message was cut into updates, the digest is compression folded over the padded message |
| Sha1Info.DigestOf | google-authenticator/libpam/sha1.c:220-327 | for every message and every way of cutting it into updates, and either form of the rounds, the digest of FIPS 180-4, which `Sha1Known.KnownAnswer` checks against the published one |
| Sha1Digest.DigestOf | google-authenticator/mobile/blackberry/src/org/bouncycastle/crypto/digests/GeneralDigest.java:59-130 | the same digest from the Java classes, for every message and every way of cutting it |
| Sha1Digest.Sha1Digest.ProcessBlock | google-authenticator/mobile/blackberry/src/org/bouncycastle/crypto/digests/SHA1Digest.java:174-303 | the same compression of 16 words, whose buffer is cleared |
| Sha1Digest.Sha1Digest.ProcessWord | google-authenticator/mobile/blackberry/src/org/bouncycastle/crypto/digests/SHA1Digest.java:75-91 | one big-endian word more is taken in |
| Sha1Digest.Sha1Digest.ProcessLength | google-authenticator/mobile/blackberry/src/org/bouncycastle/crypto/digests/SHA1Digest.java:93-103 | the length is put at the end of a block, of a further one if fewer than two words are left |
| Sha1Digest.Sha1Digest.UpdateByte | google-authenticator/mobile/blackberry/src/org/bouncycastle/crypto/digests/GeneralDigest.java:59-71 | one byte more is in the message |
| Sha1Digest.Sha1Digest.Update | google-authenticator/mobile/blackberry/src/org/bouncycastle/crypto/digests/GeneralDigest.java:73-111 | the bytes are in the message, whatever the word buffer held |
| Sha1Digest.Sha1Digest.Finish | google-authenticator/mobile/blackberry/src/org/bouncycastle/crypto/digests/GeneralDigest.java:113-130 | the chain is the compression of the padded message |
| Sha1Digest.PadWords | google-authenticator/mobile/blackberry/src/org/bouncycastle/crypto/digests/GeneralDigest.java:113-130 | bit, zeros and length as words are the standard padding of the bytes |
| Sha1Digest.Sha1Digest.DoFinal | google-authenticator/mobile/blackberry/src/org/bouncycastle/crypto/digests/SHA1Digest.java:105-120 | the digest is the same function of the message as in C, and the object is as new |
| Sha1Digest.Sha1Digest.Reset | google-authenticator/mobile/blackberry/src/org/bouncycastle/crypto/digests/GeneralDigest.java:132-141 | nothing of the old message is left |
| BufferedReader.BufferedReader.constructor | google-authenticator/mobile/blackberry/src/com/google/authenticator/blackberry/BufferedReader.java:85-93 | nothing is read yet |
| BufferedReader.BufferedReader.FillBuf | google-authenticator/mobile/blackberry/src/com/google/authenticator/blackberry/BufferedReader.java:111-141 | the position stays, the marked characters are kept while the mark is valid, and it is -1 exactly at the end |
| BufferedReader.BufferedReader.MakeRoom | google-authenticator/mobile/blackberry/src/com/google/authenticator/blackberry/BufferedReader.java:122-137 | shifting or growing the buffer keeps what the mark covers |
| BufferedReader.BufferedReader.Mark | google-authenticator/mobile/blackberry/src/com/google/authenticator/blackberry/BufferedReader.java:169-180 | the mark is at the position; a negative limit is refused |
| BufferedReader.BufferedReader.Reset | google-authenticator/mobile/blackberry/src/com/google/authenticator/blackberry/BufferedReader.java:418-428 | goes back to the mark, so that the same characters follow; it fails exactly without a mark |
| BufferedReader.BufferedReader.ReadChar | google-authenticator/mobile/blackberry/src/com/google/authenticator/blackberry/BufferedReader.java:206-218 | the next character of the text, or none at its end |
| BufferedReader.BufferedReader.Read | google-authenticator/mobile/blackberry/src/com/google/authenticator/blackberry/BufferedReader.java:245-297 | the next characters, in order and at the right place of the array, from 1 to all that are asked for; -1 at the end |
| BufferedReader.BufferedReader.Skip | google-authenticator/mobile/blackberry/src/com/google/authenticator/blackberry/BufferedReader.java:447-479 | moves on by as many characters as asked for or left |
| BufferedReader.BufferedReader.ReadLine | google-authenticator/mobile/blackberry/src/com/google/authenticator/blackberry/BufferedReader.java:310-386 | the characters up to the line end, and the position is behind it, even when CR LF straddles a refill |
| BufferedReader.BufferedReader.Serve | google-authenticator/mobile/blackberry/src/com/google/authenticator/blackberry/BufferedReader.java:206-479 | each use delivers the characters from the position on, and moves behind them |
| BufferedReader.BufferedReader.Run | google-authenticator/mobile/blackberry/src/com/google/authenticator/blackberry/BufferedReader.java:111-479 | any run of single reads, array reads, skips and lines goes through the text in order and loses nothing, however the underlying reader cuts it |
| BufferedReader.BufferedReader.MarkRunReset | google-authenticator/mobile/blackberry/src/com/google/authenticator/blackberry/BufferedReader.java:111-428 | after a mark and any run that consumes fewer characters than its limit, reset is back at the mark, whatever the buffer went through |
| BufferedReader.LineMeans | google-authenticator/mobile/blackberry/src/com/google/authenticator/blackberry/BufferedReader.java:310-386 | lines end at LF, CR or CR LF or at the end of the text, and have no line end inside |
| Kmp.MakeNext | kmp/kmp.c:23-38 | the longest proper border of every prefix, with at most three comparisons for a byte of the pattern |
| Kmp.FallBack | kmp/kmp.c:30-31 | falling back to the longest border loses no candidate |
| Kmp.Advance | kmp/kmp.c:32-36 | what is left after falling back is the longest match behind the next byte |
| Kmp.Search | kmp/kmp.c:40-60 | exactly the occurrences, overlapping ones included, with at most three comparisons for a byte of the pattern or the text, makeNext included |
| Kmp.ShiftsComplete | kmp/kmp.c:40-60 | the list has every occurrence once, ascending |
| Base32.Encode | google-authenticator/libpam/base32.c:64-95 | the digits of the data, cut to the room, terminated if there is room; -1 for a length out of range |
| Base32.EncodeAll | google-authenticator/libpam/base32.c:70-90 | the accumulator of 32 bits never loses a bit that is still needed |
| Base32.Encoded | google-authenticator/libpam/base32.c:64-95 | the encoded length is ceil(8n/5) |
| Base32.AlphabetBack | google-authenticator/libpam/base32.c:33-49 | every digit that is written is read back and is no separator |
| Base32.DecodingTakes | google-authenticator/libpam/base32.c:31-56 | one digit in the accumulator, and a byte out of it when eight bits are there |
| Base32.Decode | google-authenticator/libpam/base32.c:22-62 | the decoded bytes or -1, also when the result is the same array as the input, because writing stays behind reading |
| Base32.DecodeEncode | google-authenticator/libpam/base32.c:22-95 | decoding into a large enough buffer undoes encoding (section 6 of RFC 4648) |
| Base32Known.AlphabetIs | google-authenticator/libpam/base32.c:83-83 | the alphabet, as a string |
| Base32Known.DigitIs | google-authenticator/libpam/base32.c:33-49 | letters of both cases are digits, and 0, 1 and 8 are read as O, L and B |
| Base32Known.SeparatorIs | google-authenticator/libpam/base32.c:28-30 | what is skipped between digits |
| Base32Known.TestVector | google-authenticator/libpam/base32.c:64-95 | the encoding of "fo" (section 10 of RFC 4648) |
| Uri.Separators | google-authenticator/mobile/blackberry/src/com/google/authenticator/blackberry/Uri.java:402-418 | what the scans for scheme, path, query and fragment find in a hierarchical URI |
| Uri.PathIsAbsolute | google-authenticator/mobile/blackberry/src/com/google/authenticator/blackberry/Uri.java:2038-2061 | a split path behind a scheme or an authority is absolute already, so rebuilding adds no slash |
| Uri.HeadBack | google-authenticator/mobile/blackberry/src/com/google/authenticator/blackberry/Uri.java:1138-1152 | scheme, authority and path put together are the string up to the path's end |
| Uri.TailBack | google-authenticator/mobile/blackberry/src/com/google/authenticator/blackberry/Uri.java:1138-1152 | query and fragment put together are the rest, but for one character for each that is there and empty |
| Uri.StringUri.IsHierarchical | google-authenticator/mobile/blackberry/src/com/google/authenticator/blackberry/Uri.java:418-433 | no scheme, or a slash behind it |
| Uri.StringUri.GetAuthorityPart | google-authenticator/mobile/blackberry/src/com/google/authenticator/blackberry/Uri.java:610-637 | the characters between the two slashes and the next `/`, `?` or `#`, or none |
| Uri.StringUri.GetPathPart | google-authenticator/mobile/blackberry/src/com/google/authenticator/blackberry/Uri.java:647-684 | the path, or none for an opaque URI |
| Uri.StringUri.GetQueryPart | google-authenticator/mobile/blackberry/src/com/google/authenticator/blackberry/Uri.java:543-572 | the characters between `?` and the fragment, or none |
| Uri.StringUri.BuildUpon | google-authenticator/mobile/blackberry/src/com/google/authenticator/blackberry/Uri.java:686-700 | a builder whose build is the rebuilt URI, whatever the caches hold |
| Uri.Rebuild | google-authenticator/mobile/blackberry/src/com/google/authenticator/blackberry/Uri.java:1368-1392 | splitting any string, building from the parts and writing that down gives the string back if and only if it has no empty query and no empty fragment; each of these costs one character |
| Uri.LostMarks | google-authenticator/mobile/blackberry/src/com/google/authenticator/blackberry/Uri.java:1086-1088 | `a?` and `b:c#` do not come back |
| Uri.RoundTrip | google-authenticator/mobile/blackberry/src/com/google/authenticator/blackberry/Uri.java:1138-1152 | the same, for the functions that specify splitting, building and writing |
| UriParts.PartsBack | google-authenticator/mobile/blackberry/src/com/google/authenticator/blackberry/Uri.java:402-684 | a string written from a scheme, an authority, a path, a query and a fragment (section 3 of RFC 3986) is split into exactly these, empty and absent ones told apart |
| UriParts.OpaqueParts | google-authenticator/mobile/blackberry/src/com/google/authenticator/blackberry/Uri.java:418-478 | without a slash behind the scheme all up to the fragment is one part |
| UriParts.WithPort | google-authenticator/mobile/blackberry/src/com/google/authenticator/blackberry/Uri.java:402-411 | the parts of `http://h:80/p?a:b#c` |

## Left out

- RbTree: memory is a map from addresses to cells, so node objects are not Dafny objects; mirrored branches are one branch with a parameter `left`, and some writes of `rb_erase` that do not depend on each other are in another order.
- `rb_replace_node` (rbtree/rbtree.c:368): nothing in the repository calls it.
- AcBm: nodes are indices into a growing sequence; allocation failure is not modelled.
- The case-sensitive mode of ac_bm.c: the root's `case_sen` is always 0 (acbm/ac_bm_success/ac_bm.c:50), so upper-case branches keep a shift of 0 there and a search can stop advancing.
- `acbm_search` is the loop of `acbm_search_ex` without the offsets, and `ACtreeback_build` serves no search; both would only repeat members.
- JsonParse.ParseBuffer.ReadNumber: a number is the text that strtod accepts (decimal grammar; no hexadecimal, infinity or NaN can be spelled with the number characters), not a floating-point value; locales are not modelled.
- JsonPrint.PrintBuffer.PrintNumber: copies a token of at most 25 characters; how a double becomes that token is not modelled.
- JsonParse.ParseBuffer.ReadContainer: `parse_array` and `parse_object` share one method with a flag, and `next`, `prev` and `child` pointers are a recursive list; `print_array` and `print_object` share their item loop likewise.
- `cJSON_Raw`, allocation hooks and allocation failure, and the editing functions of cJSON: not part of this model.
- JsonMinify.Minify: requires that every string and comment of the text ends, which by `JsonMinify.StaysInside` is exactly when the loop stays inside the text; what the loop does to memory behind the text is not modelled.
- StateBuffer.StateBuffer.SetCfgValue: the six writes of the new line are one copy, and allocation failure is not modelled.
- StateText.SetThenGet: requires `Settable`, because without it the property is false (`StateText.UnsettableIsLost`).
- Authenticator.Sort: qsort is any arrangement in which the comparator accepts all pairs of neighbours, which is what merging and inserting yield; for a comparator that is no order the C standard promises nothing.
- LoginRuns.RateHolds: requires a span below 2^31 seconds, because without it the property is false (`RateFails.TwoLogins`); the condition is exact for the sort and for a file with one time, and sufficient only for a run, since wider lists exist whose one arrangement happens to be pruned right (the clock first, a future time, and a time of the distant past last).
- Authenticator.Login: one code of up to six digits for each login, with `noskewadj` set and no positive HOTP_COUNTER; scratch codes, counter-based codes, the learning of a time skew, and PAM itself are not part of this model, and reading the secret is taken to succeed.
- LoginRuns.NoReplay: the clock fits the unsigned int and the skewed step the int that the C code keeps them in; every write of the file is all or nothing, and only the modelled logins write it.
- `compute_code` (HMAC) is a function parameter from steps to codes; hmac.c and the SHA-2 files repeat the shape of SHA-1 and are not part of this model.
- Sha1Rounds.UnraveledRounds: the 80 macro calls are a loop that takes the macro by the round number modulo 6.
- Sha1Info.Sha1Info.Expand: only the meaning of the byte-order variants is modelled, not each of them; the digest array has the 5 words that are used.
- Sha1Digest.Sha1Digest.Update: the two Java classes are one class, bytes are taken as unsigned, and the copy constructors are left out.
- BufferedReader.BufferedReader.ReadLine: the flags of the loops are restructured into methods; `close` and reading from a closed reader are left out.
- Kmp.Search: comparisons of bytes are counted as the loop conditions evaluate them; what is printed is a list; for the empty pattern the code prints i+1 for every byte, and the contract says so.
- Uri: only encoded strings; encoding and decoding, query parameters and path segments are left out, and a part that is null and `Part.NULL` are one value.
- Sockets, events, files, users, logging, timers, screens, and the containers in hash, list, heap and sfghash: input and output, or members that would only be easier.
