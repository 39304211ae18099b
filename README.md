# Morse code trie: a verified model

The program keeps the Morse alphabet in a binary prefix trie of linked nodes.
From every node, '.' leads to the left child and '-' to the right child. Each
node holds one character, and a sentinel payload marks a node that holds none.
There are two copies of the trie:

- `MorseTree` (with `Node`) belongs to the text menu. Its sentinel is '\0'. It
  inserts in place, decodes by walking a path, encodes by a depth-first search,
  and tests whether it is empty.
- `MorseBST`, nested in `TreeVisualizer`, inserts in the same way but with the
  sentinel ' ', and measures the tree's height to size its drawing.

`Main` wraps the first copy in a menu. It loads the 36-entry default alphabet,
checks each input line against a regular expression, and decodes words through
a character substitution for '/'.

The model has these parts:

- **Linked structure.** The nodes are a Dafny `class Node` whose fields the tree
  classes update in place. Each node carries a ghost footprint `Repr` and a ghost
  value `Sub`: the subtree below it, as a `Tree` datatype. `Valid()` ties the two
  to the heap.
- **Abstract view.** Every tree is described by `Paths(Sub)`, a
  `map<string, char>` from the path of each existing node to its payload.
  Module `MorseSpec` states insertion (`Insert`), decoding (`Lookup`, `Steer`),
  height (`IsHeight`) and the search order (`PreorderBefore`, `IsFirstHolder`)
  on these maps and proves their properties.
- **Methods.** The methods of `MorseTree` and `MorseBST` are proved against
  those functions.
- **Java text.** `JavaText` models the `String` operations the code relies on:
  `toUpperCase`, `trim`, `split(" ")`, `replace`, and the joining done by the
  `StringBuilder` loops.
- **Menu.** `MenuInput` models the three regular expressions. `MorseMenu`
  models the menu actions, each as a method returning a `Reply` (the printed
  message) plus a function stating that reply.
- **Alphabet.** `MorseAlphabet` is the default table, shared by
  `populateDefaultMorseTree` and the visualizer's `start`.

Four behaviours of the code shape what the menu can do, and the model keeps
each of them:

- `decode` on blank input returns "?". `trim` leaves "", `split(" ")` gives
  one empty token, and that token decodes to the root's '\0', which is
  printed as '?'.
- `decodeRecursive` follows every symbol other than '.' as '-'.
- `split(" ")` keeps interior empty tokens.
- The decode prompt asks for ' ' between letters and '/' between words
  (`Main.java` line 94). The comment at line 103 says that '/' is replaced by
  a code that decodes as a space. Because of the previous two points it does
  not: the encoding of "s s" is "... / ...", and the decode prompt turns that
  into "S?0?S". Encoding and then decoding at the menu gives a text back only
  when it is a single word (`MorseMenu.MenuWordRoundTrip`). A text of several
  words comes back only under the decoding the comment describes
  (`MorseMenu.MenuTextRoundTrip`). See Findings.

## Model

| member | source | states |
|---|---|---|
| MorseNodes.Node.constructor | MorseCode/src/Node.java:14-18 | a new node holds its argument and has no left and no right child: it is a valid leaf whose subtree is that one node |
| MorseSpec.Reach | MorseCode/src/MorseTree.java:52-66 | insertion walks exactly the leading run of '.'/'-' symbols: that prefix is a code, and the next symbol, if any, is neither |
| MorseSpec.ReachOfCode | MorseCode/src/MorseTree.java:45-67 | a code made only of '.' and '-' is walked to its end |
| MorseSpec.Walked | MorseCode/src/MorseTree.java:45-67 | the nodes the insertion walk visits are exactly the prefixes of the code no longer than its walked part, root included |
| MorseSpec.Insert | MorseCode/src/MorseTree.java:45-67 | after insert, the nodes are the old nodes plus the walked prefixes: nothing is removed; every other existing node keeps its payload, each created node holds the waypoint payload, and the node at the code, when reached, holds the character |
| MorseSpec.InsertWellFormed | MorseCode/src/MorseTree.java:45-67 | insertion keeps the trie rooted, its paths codes, and every prefix of a path a node |
| MorseSpec.InsertKeeps | MorseCode/src/MorseTree.java:45-67 | an existing node at another path keeps its payload |
| MorseSpec.InsertStores | MorseCode/src/MorseTree.java:45-67 | after inserting at a code of '.' and '-', the node at that code exists and holds the character |
| MorseSpec.InsertThenLookup | MorseCode/src/MorseTree.java:45-112 | after insert(c, p) with p over '.' and '-', decoding p yields c |
| MorseSpec.LastWriteWins | MorseCode/src/MorseTree.java:45-67 | inserting twice at the same code equals inserting only the second character |
| MorseSpec.InsertStopsAtBadSymbol | MorseCode/src/MorseTree.java:55-66 | at the first symbol other than '.' and '-' the walk stops: the nodes for earlier symbols are created, nothing is stored, no payload changes |
| MorseSpec.InsertHere | MorseCode/src/MorseTree.java:47-50 | an exhausted code overwrites the current node's payload and nothing else (an empty code overwrites the root) |
| MorseSpec.InsertChild | MorseCode/src/MorseTree.java:52-66 | a code starting with '.' (or '-') inserts the rest into the left (or right) subtree; the node's payload and the other subtree are untouched |
| MorseSpec.InsertStop | MorseCode/src/MorseTree.java:55-66 | a code starting with another symbol leaves the subtree unchanged |
| MorseSpec.InsertFromBlank | MorseCode/src/MorseTree.java:56-59 | continuing from a freshly created waypoint adds the same nodes as inserting into the missing child |
| MorseSpec.BareRoot | MorseCode/src/MorseTree.java:22-25 | the root has neither a '.' nor a '-' child exactly when the root is the only node |
| MorseSpec.BareGraft | MorseCode/src/MorseTree.java:22-25 | a node is the only node of its subtree exactly when both child slots are empty |
| MorseSpec.InsertMakesNonEmpty | MorseCode/src/MorseTree.java:45-67 | an insert whose first symbol is '.' or '-' creates a child of the root, so the tree is no longer empty |
| MorseSpec.Steer | MorseCode/src/MorseTree.java:104-111 | decoding follows a path of the input's length with '.' exactly where the input has '.', and '-' for every other symbol |
| MorseSpec.SteerOfCode | MorseCode/src/MorseTree.java:104-111 | on a code of '.' and '-', decoding follows the code itself |
| MorseSpec.Lookup | MorseCode/src/MorseTree.java:94-112 | decoding yields '\0' or a payload of the tree, and a code over '.' and '-' that is a node yields that node's payload |
| MorseSpec.LookupGraft | MorseCode/src/MorseTree.java:94-112 | decoding at a node: an exhausted code yields its payload, '.' goes on in the left subtree and any other symbol in the right one |
| MorseSpec.GraftLeaf | MorseCode/src/Node.java:14-18 | a node without children carries the one-node trie of its own payload |
| MorseSpec.Paths | MorseCode/src/Node.java:5-8 | a missing node has no paths; a node's own path holds its payload |
| MorseSpec.PathsWellFormed | MorseCode/src/Node.java:5-8 | nodes linked only by the two child slots form a rooted, prefix-closed trie of codes |
| MorseSpec.InsertTree | MorseCode/src/MorseTree.java:45-67 | insertRecursive always leaves a node at the current position; below a non-empty code the node keeps its payload, a newly created one holding the sentinel |
| MorseSpec.InsertTreePaths | MorseCode/src/MorseTree.java:45-67 | the node-by-node recursion of insertRecursive, on tree values, is the map-level Insert |
| MorseSpec.RootOnlyHeight | MorseCode/src/TreeVisualizer.java:40-44 | a new tree, just the root, has height 1 |
| MorseSpec.IsHeight | MorseCode/src/TreeVisualizer.java:91-97 | a height is never negative, and it is 0 exactly for the missing tree |
| MorseSpec.HeightUnique | MorseCode/src/TreeVisualizer.java:87-97 | a trie has only one height |
| MorseSpec.HeightGraft | MorseCode/src/TreeVisualizer.java:91-97 | a node's height is one more than the larger of its children's heights, a missing child counting 0 |
| MorseSpec.InsertHeight | MorseCode/src/TreeVisualizer.java:59-79 | after an insertion the height is the larger of the old height and the walked length plus one |
| MorseSpec.PrefixPrecedes | MorseCode/src/MorseTree.java:148-166 | the search visits a node before every node below it |
| MorseSpec.PreorderAntisymmetric | MorseCode/src/MorseTree.java:148-166 | two paths each visited no later than the other are the same path |
| MorseSpec.PreorderTransitive | MorseCode/src/MorseTree.java:148-166 | the visiting order is transitive |
| MorseSpec.PreorderTotal | MorseCode/src/MorseTree.java:148-166 | any two codes are ordered by the visiting order |
| MorseSpec.FirstHolderUnique | MorseCode/src/MorseTree.java:148-166 | the first node holding a character in dot-first preorder is unique |
| MorseSpec.HoldsHasFirst | MorseCode/src/MorseTree.java:148-166 | a character held somewhere has a first holder |
| MorseSpec.HoldsGraft | MorseCode/src/MorseTree.java:148-166 | a character is held below a node exactly when the node, its left subtree or its right subtree holds it |
| MorseSpec.FirstHere | MorseCode/src/MorseTree.java:154-156 | a node holding the target is the first holder of its subtree |
| MorseSpec.FirstDot | MorseCode/src/MorseTree.java:159-162 | below a node not holding the target, the first holder in the left subtree is the first holder below the node |
| MorseSpec.FirstDash | MorseCode/src/MorseTree.java:165 | with no holder in the left subtree, the first holder in the right subtree is the first holder below the node |
| MorseSpec.SearchHere | MorseCode/src/MorseTree.java:154-156 | returning the current path is the correct search result at a node holding the target |
| MorseSpec.SearchDot | MorseCode/src/MorseTree.java:159-162 | a hit in the left subtree is the correct search result for the node |
| MorseSpec.SearchDash | MorseCode/src/MorseTree.java:165 | after a miss on the left, the right subtree's result, hit or miss, is the correct result for the node |
| MorseSpec.InsertAllDomain | MorseCode/src/Main.java:123-142 | after a sequence of insertions the nodes are the original ones plus every path the walks visit |
| MorseSpec.WalkedAllCodes | MorseCode/src/Main.java:123-142 | walking several codes of '.' and '-' visits exactly their prefixes |
| MorseSpec.InsertAllKeys | MorseCode/src/Main.java:123-142 | after inserting several codes the nodes are the original nodes and exactly the prefixes of those codes |
| MorseSpec.InsertAllOrigin | MorseCode/src/Main.java:123-142 | after several insertions a node holds its original payload, the waypoint payload, or the character of an entry whose code is its path |
| MorseSpec.InsertAllLookup | MorseCode/src/Main.java:123-142 | an entry that no later entry overwrites is found at its code |
| MorseSpec.InsertAllWellFormed | MorseCode/src/Main.java:123-142 | a sequence of insertions keeps the trie well formed |
| JavaText.UpperChar | MorseCode/src/MorseTree.java:123 | a lower-case ASCII letter becomes its upper-case letter; every other character is kept |
| JavaText.ToUpperCase | MorseCode/src/MorseTree.java:123 | upper-casing keeps the length and upper-cases each character on its own |
| JavaText.TrimStart | MorseCode/src/MorseTree.java:78 | trim's left end: a suffix of the input; every removed leading character is at most ' ', and the result, when not empty, starts above ' ' |
| JavaText.TrimEnd | MorseCode/src/MorseTree.java:138 | trim's right end: a prefix of the input; every removed trailing character is at most ' ', and the result, when not empty, ends above ' ' |
| JavaText.Trim | MorseCode/src/MorseTree.java:78 | trim never lengthens the text, and its result, when not empty, starts and ends with a character above ' ' |
| JavaText.TrimPadded | MorseCode/src/MorseTree.java:78 | trim removes exactly the blanks at both ends: a text with no blank at either end, padded with characters up to ' ' on both sides, trims back to itself |
| JavaText.TrimStartPadded | MorseCode/src/MorseTree.java:78 | leading characters up to ' ' before a text that does not start with one are exactly what trim's left end removes |
| JavaText.TrimEndPadded | MorseCode/src/MorseTree.java:138 | trailing characters up to ' ' after a text that does not end with one are exactly what trim's right end removes |
| JavaText.TrimKeeps | MorseCode/src/MorseTree.java:138 | a text with no blank at either end is left alone by trim |
| JavaText.TrimDropsTrailingSpace | MorseCode/src/MorseTree.java:133-138 | the space left after the last token is exactly what trim removes |
| JavaText.Pieces | MorseCode/src/MorseTree.java:78 | cutting at single spaces gives at least one piece |
| JavaText.DropTrailingEmpty | MorseCode/src/MorseTree.java:78 | split drops exactly the trailing run of empty pieces: the result is a prefix of the pieces, every dropped piece is empty, and the result does not end in an empty piece |
| JavaText.Split | MorseCode/src/MorseTree.java:78 | split(" ") of "" is [""]; otherwise the pieces between single spaces with exactly their trailing run of empty pieces dropped, so a non-empty result never ends in an empty token |
| JavaText.Join | MorseCode/src/MorseTree.java:125-138 | tokens joined by single spaces, as the builder's appends and the final trim leave them: the first token starts the text |
| JavaText.PiecesOfJoin | MorseCode/src/MorseTree.java:78 | cutting tokens without spaces, joined by single spaces, gives the tokens back |
| JavaText.SplitOfJoin | MorseCode/src/MorseTree.java:78 | split(" ") gives back non-empty space-free tokens that were joined by single spaces |
| JavaText.SplitTrimJoin | MorseCode/src/MorseTree.java:78 | non-empty tokens of characters above ' ', joined by single spaces, survive trim and split unchanged |
| JavaText.Replace | MorseCode/src/Main.java:104 | replace, left to right and without overlaps: replacing a target by itself changes nothing, and a replacement of the target's length keeps the text's length |
| JavaText.ReplaceAbsent | MorseCode/src/Main.java:104 | a text in which the target's first character never occurs is not changed by replace |
| JavaText.ReplaceAfterPrefix | MorseCode/src/Main.java:104 | replacing a one-character target copies a leading part free of it unchanged |
| JavaText.ReplaceAtFront | MorseCode/src/Main.java:104 | a one-character target at the front is replaced, then replacement goes on in the rest |
| MenuInput.SeparatorReplaced | MorseCode/src/Main.java:104 | substituting " space " for '/' in "... / ..." leaves a doubled space on each side of the word "space" |
| MenuInput.SeparatorTokens | MorseCode/src/MorseTree.java:78 | decode splits that text into five tokens, two of them empty |
| MenuInput.SeparatorSteers | MorseCode/src/MorseTree.java:104-111 | decoding steers "space" along "-----" and an empty token to the root |
| MenuInput.IsMorseCode | MorseCode/src/Main.java:63-66 | a code accepted by [.-]+ is walked to its end by insert and followed exactly by decode |
| MenuInput.IsPlainText | MorseCode/src/Main.java:80-83 | a text accepted by [a-zA-Z ]+ upper-cases to capital letters and spaces only |
| MenuInput.IsMorseText | MorseCode/src/Main.java:98-101 | [.\- /]+ accepts every code [.-]+ accepts, and shares with [a-zA-Z ]+ only texts made of spaces |
| MorseTrees.DecodeLetter | MorseCode/src/MorseTree.java:81-83 | a token yields '?' exactly when its walk finds '\0' (a missing node or a sentinel node) or '?'; otherwise the payload the walk finds |
| MorseTrees.DecodeTokens | MorseCode/src/MorseTree.java:80-84 | exactly one character per token, in token order, each decoded on its own |
| MorseTrees.DecodeText | MorseCode/src/MorseTree.java:76-86 | one character per token of the trimmed, split input; blank input on a tree whose root holds '\0' gives "?" |
| MorseTrees.EncodeTokens | MorseCode/src/MorseTree.java:125-137 | one token per character, each the token of that character |
| MorseTrees.EncodeText | MorseCode/src/MorseTree.java:121-139 | the empty text encodes to the empty text |
| MorseTrees.EncodeChar | MorseCode/src/MorseTree.java:126-136 | a space becomes "/"; any other character becomes "?" or the path of a node holding it |
| MorseTrees.EncodeRaw | MorseCode/src/MorseTree.java:125-137 | the builder is empty exactly for the empty text, and otherwise ends with the space appended after the last token |
| MorseTrees.MorseTree.constructor | MorseCode/src/MorseTree.java:14-16 | a new tree is a lone root holding '\0', on newly allocated nodes |
| MorseTrees.MorseTree.IsEmpty | MorseCode/src/MorseTree.java:22-25 | true exactly when the root is the only node |
| MorseTrees.MorseTree.Insert | MorseCode/src/MorseTree.java:34-37 | the new trie is Insert of the old one with sentinel '\0'; the tree stays valid and only new nodes join it |
| MorseTrees.MorseTree.InsertRecursive | MorseCode/src/MorseTree.java:45-67 | the subtree below the current node becomes InsertTree of the old subtree; nodes are only added |
| MorseTrees.MorseTree.DecodeRecursive | MorseCode/src/MorseTree.java:94-112 | the result is the payload at the steered path below the node, or '\0' when that node is missing |
| MorseTrees.MorseTree.Decode | MorseCode/src/MorseTree.java:76-86 | the loop's result is DecodeText of the tree's trie |
| MorseTrees.MorseTree.FindMorseCodeRecursive | MorseCode/src/MorseTree.java:148-166 | the result is a path exactly when some node below holds the target; it extends the current path by the path of the first holder in dot-first preorder |
| MorseTrees.MorseTree.Encode | MorseCode/src/MorseTree.java:121-139 | the loop's result is EncodeText of the tree's trie |
| MorseTrees.EncodeCharFound | MorseCode/src/MorseTree.java:131-133 | a held character other than ' ' encodes as the path of its first holder |
| MorseTrees.EncodeCharMissing | MorseCode/src/MorseTree.java:134-136 | a character held nowhere encodes as "?" |
| MorseTrees.WaypointDecodesUnknown | MorseCode/src/MorseTree.java:81-83 | a code ending at an existing node that holds '\0' (the root or a waypoint) decodes as '?' |
| MorseTrees.EncodeRawJoin | MorseCode/src/MorseTree.java:125-137 | before trimming, the encoding is the tokens joined by single spaces plus one trailing space |
| MorseTrees.TextTokens | MorseCode/src/MorseTree.java:125-137 | for an encodable text each token is "/" for a space and otherwise the non-empty code of a node holding the character |
| MorseTrees.EncodeJoin | MorseCode/src/MorseTree.java:121-139 | a non-empty encodable text encodes to its tokens joined by single spaces |
| MorseTrees.DecodeCodes | MorseCode/src/MorseTree.java:80-84 | decoding codes of nodes that hold characters other than '\0' gives those characters back |
| MorseTrees.SplitJoinedCodes | MorseCode/src/MorseTree.java:78 | non-empty codes joined by single spaces split back into the same codes |
| MorseTrees.DecodeJoin | MorseCode/src/MorseTree.java:76-86 | decoding such joined codes gives the held characters back |
| MorseTrees.RoundTrip | MorseCode/src/MorseTree.java:76-139 | decode(encode(w)) is w upper-cased, for a space-free word whose upper-cased characters sit at non-root nodes and are not '\0' |
| MorseTrees.DecodedChars | MorseCode/src/MorseTree.java:76-86 | every decoded character is '?' or a payload of the tree |
| MorseAlphabet.DefaultCodesShape | MorseCode/src/Main.java:123-142 | every default code is a non-empty code of at most five symbols |
| MorseAlphabet.DefaultCharsDistinct | MorseCode/src/Main.java:123-142 | no character occurs twice in the default table |
| MorseAlphabet.DefaultCodesDistinct | MorseCode/src/TreeVisualizer.java:167-184 | the 36 default codes are pairwise distinct |
| MorseAlphabet.MarksNotDefault | MorseCode/src/Main.java:123-142 | '\0', ' ' and 's' are not default characters |
| MorseAlphabet.DefaultCharsAlnum | MorseCode/src/Main.java:123-142 | every default character is an upper-case letter or a digit |
| MorseAlphabet.AlnumIsDefault | MorseCode/src/Main.java:123-142 | every upper-case letter and every digit is in the default table |
| MorseAlphabet.DefaultWellFormed | MorseCode/src/Main.java:123-142 | the default tree is a well-formed trie |
| MorseAlphabet.DefaultKeys | MorseCode/src/Main.java:123-142 | the default tree's nodes are the root and exactly the prefixes of the default codes |
| MorseAlphabet.DefaultAt | MorseCode/src/Main.java:123-142 | after the defaults each default code leads to its own character |
| MorseAlphabet.DefaultPayload | MorseCode/src/Main.java:123-142 | after the defaults each node holds the sentinel or is the node of a default entry holding that entry's character |
| MorseAlphabet.DefaultRoot | MorseCode/src/Main.java:123-142 | the root keeps the sentinel, since no default code is empty |
| MorseAlphabet.DefaultHeight | MorseCode/src/TreeVisualizer.java:167-188 | after the defaults the height is 6: the root plus five levels |
| MorseAlphabet.DefaultFirstHolder | MorseCode/src/Main.java:123-142 | a default character is held only at its own code, which is therefore what the search finds |
| MorseAlphabet.DefaultLacks | MorseCode/src/Main.java:123-142 | after the defaults, a character that is neither a default character nor the sentinel is held nowhere |
| MorseAlphabet.WaypointCode | MorseCode/src/Main.java:137 | "..--" is a code, a prefix of the code of '2', and the code of no default entry |
| MorseAlphabet.DefaultWaypoint | MorseCode/src/Main.java:137 | after the defaults, the node "..--" exists as a waypoint holding the sentinel |
| MorseVisualizer.MorseBST.constructor | MorseCode/src/TreeVisualizer.java:40-44 | a new tree is a lone root holding ' ', on newly allocated nodes |
| MorseVisualizer.MorseBST.Insert | MorseCode/src/TreeVisualizer.java:51-53 | the new trie is Insert of the old one with sentinel ' '; only new nodes join |
| MorseVisualizer.MorseBST.InsertRecursive | MorseCode/src/TreeVisualizer.java:59-79 | the subtree below the current node becomes InsertTree of the old subtree with sentinel ' ' |
| MorseVisualizer.MorseBST.GetHeight | MorseCode/src/TreeVisualizer.java:87-89 | the result is the height of the tree's trie |
| MorseVisualizer.MorseBST.GetHeightOf | MorseCode/src/TreeVisualizer.java:91-97 | the result is the height of the subtree: 0 for a missing node |
| MorseVisualizer.InsertEntries | MorseCode/src/TreeVisualizer.java:167-184 | inserting the entries of a table in order gives InsertAll of the old trie |
| MorseVisualizer.Start | MorseCode/src/TreeVisualizer.java:163-188 | start builds the default alphabet tree with sentinel ' ' and measures height 6 |
| MorseMenu.Startup | MorseCode/src/Main.java:12-13 | main starts with a new tree holding exactly the default alphabet |
| MorseMenu.PopulateDefaultMorseTree | MorseCode/src/Main.java:123-142 | the 36 default entries are inserted in table order |
| MorseMenu.InsertEntries | MorseCode/src/Main.java:124-141 | inserting the entries of a table in order gives InsertAll of the old trie |
| MorseMenu.HandleInsert | MorseCode/src/Main.java:50-70 | the tree changes only when the input is one character and the code matches [.-]+; the character is upper-cased; the reply says which check failed |
| MorseMenu.HandleEncode | MorseCode/src/Main.java:72-87 | refused on an empty tree, then on text outside [a-zA-Z ]+; otherwise the reply holds the encoding |
| MorseMenu.HandleDecode | MorseCode/src/Main.java:89-108 | refused on an empty tree, then on text outside [.\- /]+; otherwise the reply holds the output of the separator pipeline |
| MorseMenu.HandleDisplayTree | MorseCode/src/Main.java:110-118 | refused exactly when the tree is empty; otherwise the visualizer is launched |
| MorseMenu.InsertReply | MorseCode/src/Main.java:50-70 | the length check comes first; a character is inserted exactly when the input is one character and the code matches [.-]+, and it is that character upper-cased |
| MorseMenu.InsertEffect | MorseCode/src/Main.java:50-70 | handleInsert never removes a node, and leaves the tree unchanged when either check fails |
| MorseMenu.EncodeReply | MorseCode/src/Main.java:72-87 | the emptiness check comes first; the text is encoded exactly when the tree is not empty and the text matches [a-zA-Z ]+ |
| MorseMenu.DecodeReply | MorseCode/src/Main.java:89-108 | the emptiness check comes first; the text is decoded exactly when the tree is not empty and the text matches [.\- /]+ |
| MorseMenu.DecodePipeline | MorseCode/src/Main.java:104-107 | on a tree holding no lower-case 's', a text without '/' goes through both replacements untouched and is decoded exactly as decode does |
| MorseMenu.InsertThenDecode | MorseCode/src/Main.java:50-70 | after an accepted menu insertion, decoding the entered code gives the stored character |
| MorseMenu.InsertKeepsLowerSOut | MorseCode/src/Main.java:57 | accepted insertions store upper-cased characters, so they never add a lower-case 's' |
| MorseMenu.FinalReplaceNeverFires | MorseCode/src/Main.java:107 | on a tree without a lower-case 's', the final replacement of "space" never changes the decoded text |
| MorseMenu.StartupLacksLowerS | MorseCode/src/Main.java:123-142 | the default tree holds no lower-case 's' |
| MorseMenu.StartupNotEmpty | MorseCode/src/Main.java:123-142 | after start-up the tree is not empty, so no menu action is refused for emptiness |
| MorseMenu.StartupEncodable | MorseCode/src/Main.java:80-85 | after start-up every letter a text accepted by [a-zA-Z ]+ can hold sits at a non-root node |
| MorseMenu.DecodePromptOneCode | MorseCode/src/Main.java:89-108 | a single code at the decode prompt yields the one character decode finds for it |
| MorseMenu.StartupDecodesDefaults | MorseCode/src/Main.java:123-142 | after start-up each of the 36 codes, typed at the decode prompt, gives its character |
| MorseMenu.WaypointPrompt | MorseCode/src/Main.java:89-108 | a code ending at a sentinel node gives "?" at the decode prompt |
| MorseMenu.StartupDecodesWaypoint | MorseCode/src/Main.java:137 | after start-up "..--" gives "?" at the decode prompt |
| MorseMenu.EncodeOneChar | MorseCode/src/MorseTree.java:121-139 | a one-character text encodes as the path of its first holder |
| MorseMenu.StartupEncodesDefaults | MorseCode/src/Main.java:123-142 | after start-up each default character encodes as its code |
| MorseMenu.EncodedWordIsMorse | MorseCode/src/Main.java:98-101 | the encoding of an encodable word is non-empty and made of '.', '-' and ' ', so the decode prompt accepts it |
| MorseMenu.WordPromptRoundTrip | MorseCode/src/Main.java:72-108 | on a non-empty tree without 's', a word is accepted at the encode prompt and its encoding decodes at the decode prompt to the word upper-cased |
| MorseMenu.MenuWordRoundTrip | MorseCode/src/Main.java:72-108 | after start-up, the same round trip for every word of letters |
| MorseMenu.EncodesAsTokens | MorseCode/src/MorseTree.java:121-139 | a text encodes as given tokens when they are "/" for its spaces and the first holders of its other characters |
| MorseMenu.SosExample | MorseCode/src/Main.java:123-142 | after start-up "sos" encodes as "... --- ...", which decodes to "SOS" |
| MorseMenu.SeparatorEncoded | MorseCode/src/Main.java:85 | after start-up "s s" encodes as "... / ..." |
| MorseMenu.SeparatorPipeline | MorseCode/src/Main.java:104-107 | on a tree where the root holds '\0', "..." holds 'S' and "-----" holds '0', the pipeline decodes "... / ..." to "S?0?S" |
| MorseMenu.SeparatorAsWritten | MorseCode/src/Main.java:104-107 | after start-up, encoding "s s" and decoding the result at the menu gives "S?0?S" |
| MorseMenu.DecodeWords | MorseCode/src/Main.java:104-107 | the intended word decoding gives one character per token |
| MorseMenu.WordsRoundTrip | MorseCode/src/Main.java:104-107 | with "/" read as a word break, decoding the encoding of any encodable text gives the text upper-cased, spaces included |
| MorseMenu.SplitEncoding | MorseCode/src/MorseTree.java:78 | decode's trim and split give back exactly the tokens encode emitted for an encodable text, "/" tokens included |
| MorseMenu.MenuTextRoundTrip | MorseCode/src/Main.java:72-108 | after start-up, that round trip for every text of letters and spaces |
| MorseMenu.SeparatorIntended | MorseCode/src/Main.java:104-107 | the intended decoding turns "... / ..." into "S S" |

## Left out

- Console input and output are not modelled. The `Scanner` menu loop, `displayMenu`, the option number parsing and its `NumberFormatException` message are left out. Each action's input lines are parameters, and each printed message is a `Reply` value.
- The static `morseTree` field is not modelled as shared state. The menu methods take the tree as a parameter.
- `getRoot` is not modelled. It only exposes the root for drawing.
- JavaFX is not modelled: `drawTree`, `drawNode`, the window, and the canvas size computed from the height with `Math.pow` and doubles. `handleDisplayTree` only returns `LaunchVisualizer`, and `launch` is foreign UI code.
- The 36 literal `insert` calls in `populateDefaultMorseTree` and in `start` are modelled as a loop over the table `Defaults`. The entries are the same, in the same order.
- The two `Node` classes, `Node` and the visualizer's nested `Node`, are one class `MorseNodes.Node`. They differ only in the name of the payload field, `character` versus `letter`.
- Java `char` is a UTF-16 code unit, and Dafny's `char` is a Unicode scalar value. Lone surrogates are not representable, and `length() != 1` on a surrogate pair is not modelled.
- JavaText.ToUpperCase: upper-cases ASCII letters only, and assumes a default locale that is not Turkish or Azeri. Java's no-argument `toUpperCase` follows the default locale and Unicode. It changes letters outside ASCII, can change the length ('ß' becomes "SS"), and under a Turkic locale maps 'i' to 'İ' (U+0130). Under any other locale it agrees with the model on the texts matching [a-zA-Z ]+ that the menu passes to `encode`. `handleInsert`, however, upper-cases any single character.
- Recursion depth is not modelled: a `StackOverflowError` on a very long code is out of scope. So is `int` overflow in `getHeight`, which needs a code longer than any Java string.
- Null strings are not modelled. The menu never passes null.
- MorseMenu.Startup: promises that the returned tree object is new (`fresh(morseTree)`), not that every node in its footprint is new.
- MorseVisualizer.Start: promises that the returned tree object is new (`fresh(bst)`), not that every node in its footprint is new.
- MorseTrees.RoundTrip: requires that no character of the word is '\0' or the character held at the root. Such a character has the root as its first holder, so it encodes as the empty token. An empty token between two others is kept by `split(" ")` and decodes back to the root's character. At the start or the end of a word of two or more characters, though, its separating space is removed by `trim`, and the character is lost. The requires excludes every root-held character, not only those at the ends. `decode` also prints a '\0' payload as '?', so '\0' never comes back.

## Findings

| source | as written | input that shows it | evidently intended | confidence | as-written member | corrected member |
|---|---|---|---|---|---|---|
| MorseCode/src/Main.java:104-107 | '/' is replaced by " space ", the text is decoded, then "space" is replaced by " "; but `decode` walks the token "space" as "-----" (the code of '0'), the doubled spaces give empty tokens that decode to the root's '?', and the output never contains "space" | "s s" encodes to "... / ...", which the decode prompt turns into "S?0?S" | a "/" token decodes as a space, so "... / ..." gives "S S" and every text of letters and spaces survives encode then decode (`MorseMenu.WordsRoundTrip`, `MorseMenu.SeparatorIntended`) | not executed | MorseMenu.SeparatorAsWritten | MorseMenu.DecodeWords |
