# Spell-check dictionary: a verified model

This project models the core of a small C spell checker. The core has two parts.

- **The dictionary** (`proj1-code/dictionary.c`). It is an unbalanced binary search tree of heap nodes, with a root pointer and a size counter.
  - Words are inserted by a `strcmp` walk and looked up by a `strcasecmp` walk.
  - The tree is printed and saved in order, and freed in post-order.
  - It is loaded from a text file of one word per line.
- **The per-word step of the spell checker** (`spell_check_file` in `proj1-code/spell_check.c`).
  - Each token is cleaned in place to its lower-cased letters and looked up.
  - The token is printed with a `[X]` marker when the lookup misses.
  - It is followed by a newline or a space.
  - A `misspelled` flag, set by a miss and cleared at a line end, adds a space before each later word of the line.

## Layout

| file | what it holds |
|---|---|
| `cstrings.dfy` | `isalpha`, `tolower`, `strcmp` and `strcasecmp` in the "C" locale. |
| `wordtree.dfy` | The tree as a value (`WordTree.Tree`). This is the reference model: insertion, lookup and in-order listing, and the properties proved about them. |
| `nodeshapes.dfy` | The heap nodes (`Node`) and a ghost `Shape` that names the node objects in tree order. It holds the lemmas on how one pointer update changes the tree, and the post-order teardown order. |
| `textformat.dfy` | The saved file format, `fgets` line splitting, the load loop as a function, and the save/load round trip. |
| `dictionary.dfy` | `class Dictionary`: insert, find, in-order output, teardown order, and the C entry points that take NULL pointers. It also holds the case-mismatch scenario. |
| `spellcheck.dfy` | Token cleanup on a `char` array, the per-word output rule, and the token loop. It also holds the properties of the output. |
| `option.dfy` | `Option`, used for NULL pointers and unopenable files. |

### How the heap model relates to the value model

- `Dictionary.Valid()` says four things:
  - The heap holds exactly the nodes of the ghost `shape`, each once.
  - Each node's `left`/`right` pointers are the roots of its subtrees in `shape`.
  - The words are strictly ordered by `strcmp`.
  - `size` counts the nodes.
- `Contents()` is the value tree of `shape`.
- Every state-changing method of `Dictionary` is specified by its effect on `Contents()`. For example, `Insert` ensures `Contents() == TreeInsert(old(Contents()), word)`.
- The properties of the value functions are proved in `wordtree.dfy` and `textformat.dfy`.

### Behaviour worth knowing

- **Case mismatch in lookup.** `dict_insert` orders the tree by `strcmp`, but `dict_find` walks it with `strcasecmp`.
  - After inserting "apple", "Banana" and "cherry", a reader might expect `dict_find("banana")` to hit.
  - The code misses it. "Banana" sits left of "apple", because upper-case letters sort first under `strcmp`. The case-folded walk compares "banana" with "apple", turns right and never reaches "Banana".
  - The model proves this miss (`Dictionaries.CaseMismatchScenario`).
  - Lookup is proved sound in general, and exact when no stored word has an upper-case letter.
- **Spell-check output.** For the line "Helo wrold!" against a dictionary holding "hello" and "world", the code prints `helo[X]  wrold[X]` and a newline.
  - The words come out lower-cased, because the cleaned buffer is what gets printed.
  - Every word is followed by a space or a newline. While the `misspelled` flag is set, each later word of the line also gets a leading space (spell_check.c:35 and spell_check.c:41). That is why two spaces come before "wrold".
  - This is proved in `SpellCheck.HeloWrold`.

## Model

| member | source | states |
|---|---|---|
| CStrings.ToLower | proj1-code/spell_check.c:26 | `tolower` in the "C" locale: 'A'..'Z' map to the letter 32 code points higher ('a'..'z'), and every other character is unchanged. The result is never upper-case, and a letter stays a letter. |
| CStrings.Strcmp | proj1-code/dictionary.c:40 | The comparison's sign is -1, 0 or 1, and it is 0 exactly when the two words are equal. |
| CStrings.StrcmpAntisymmetric | proj1-code/dictionary.c:40-58 | Swapping the operands negates the comparison, so "left of" and "right of" are mirror images. |
| CStrings.StrcmpTransitive | proj1-code/dictionary.c:40-58 | The `strcmp` order is transitive. |
| CStrings.Strcasecmp | proj1-code/dictionary.c:73 | `strcasecmp` equals `strcmp` of both strings lower-cased. |
| WordTree.InsertWords | proj1-code/dictionary.c:37-59 | Insertion adds exactly the new word to the stored set. |
| WordTree.InsertKeepsOrder | proj1-code/dictionary.c:37-59 | Insertion keeps the strict `strcmp` order at every node. |
| WordTree.InsertSize | proj1-code/dictionary.c:40-55 | In a search tree, inserting a stored word leaves the tree unchanged. Inserting any other word adds exactly one node. |
| WordTree.InsertExtends | proj1-code/dictionary.c:44-57 | Insertion never moves or rewrites an existing node; the new word only hangs below the old tree. |
| WordTree.InOrderSorted | proj1-code/dictionary.c:87-94 | The in-order listing of a search tree holds every stored word once, in strictly increasing `strcmp` order, one entry per node. |
| WordTree.SortedUnique | proj1-code/dictionary.c:87-94 | Two strictly sorted listings with the same words are equal, so the in-order listing is determined by the word set. |
| WordTree.SearchSound | proj1-code/dictionary.c:71-83 | A hit of the `strcasecmp` walk always stands for a stored word equal to the query up to case. |
| WordTree.SearchExactWhenLower | proj1-code/dictionary.c:71-83 | When no stored word has an upper-case letter, the walk hits exactly when the lower-cased query is stored. |
| NodeShapes.Node.constructor | proj1-code/dictionary.c:22-28 | A new node holds the word and has no children. |
| NodeShapes.AbsShapeInsert | proj1-code/dictionary.c:37-59 | Inserting a node by the `strcmp` walk on node shapes inserts its word into the value tree. |
| NodeShapes.SizeIsNodeCount | proj1-code/dictionary.c:33-54 | With distinct node objects, the node count of the tree is the number of node objects. |
| NodeShapes.InsertMeetsEqual | proj1-code/dictionary.c:40-43 | When the walk meets an equal word, the word is already stored and insertion changes nothing. |
| NodeShapes.InsertDescends | proj1-code/dictionary.c:44-57 | Stepping to the non-NULL child on the side `strcmp` picks stays inside the tree and keeps the walk's invariant: the rest of the insertion happens in that child's subtree. |
| NodeShapes.LinkedAfterAttach | proj1-code/dictionary.c:45-55 | Once the empty child pointer is set to the fresh leaf, every node's pointers match the new tree. |
| NodeShapes.AttachInserts | proj1-code/dictionary.c:45-55 | Hanging the fresh leaf where the walk falls off has several effects. It inserts the word, which was absent. It keeps the order and the root. It adds exactly that node, once, and the node count grows by one. |
| NodeShapes.PostOrderMembers | proj1-code/dictionary.c:103-110 | The post-order listing holds exactly the nodes of the tree, one entry per node. |
| NodeShapes.PostOrderOnce | proj1-code/dictionary.c:103-110 | The teardown releases every node of the tree, each exactly once. |
| NodeShapes.PostOrderDistinct | proj1-code/dictionary.c:103-110 | No node is released twice. |
| NodeShapes.PostOrderChildrenFirst | proj1-code/dictionary.c:103-110 | A node is released only after every node of its subtree, so no freed node's pointers are read later. |
| TextFormat.LineLength | proj1-code/dictionary.c:132 | `fgets` returns a non-empty line that is no longer than the remaining text. The line holds no '\n' before its last character. It ends with '\n' unless it runs to the end of the text. |
| TextFormat.FgetsLinesCover | proj1-code/dictionary.c:132 | The lines `fgets` returns put back together give the whole file. Every line is non-empty and holds no '\n' before its last character. Every line but the last ends with '\n'. |
| TextFormat.FgetsRecords | proj1-code/dictionary.c:132-137 | Reading a saved file back line by line and stripping each '\n' gives the saved words, provided no word holds a '\n'. |
| TextFormat.LoadFromSucceeds | proj1-code/dictionary.c:132-146 | A load succeeds exactly when no stripped line repeats a stored word or an earlier line. |
| TextFormat.LoadFromResult | proj1-code/dictionary.c:132-146 | A successful load leaves a search tree holding the old words plus every stripped line. |
| TextFormat.SaveLoadRoundTrip | proj1-code/dictionary.c:119-178 | Saving a dictionary and loading the file back succeeds and gives the same in-order word list, provided no word holds a '\n'. |
| Dictionaries.Dictionary.constructor | proj1-code/dictionary.c:6-14 | `create_dictionary`: no root, size 0, an empty tree. |
| Dictionaries.Dictionary.Insert | proj1-code/dictionary.c:16-62 | `dict_insert` returns 0 exactly when the word was not stored, and the tree becomes the value insertion. On a duplicate it returns -1 and the heap is unchanged. The invariant is kept, old nodes stay in place, and size grows by one on success. |
| Dictionaries.Dictionary.AdoptLeaf | proj1-code/dictionary.c:45-55 | After a child pointer is set to the new leaf, the ghost tree is the value insertion and the invariant holds again. |
| Dictionaries.Dictionary.Find | proj1-code/dictionary.c:65-84 | The pointer walk returns the `strcasecmp` search on the stored tree. A hit is a stored word up to case, and the walk is exact when no stored word has an upper-case letter. |
| Dictionaries.Dictionary.EmitInOrder | proj1-code/dictionary.c:87-94 | The recursive traversal appends the subtree's words in order, each followed by '\n'. |
| Dictionaries.Dictionary.ReleasePostOrder | proj1-code/dictionary.c:103-110 | The recursive teardown visits the subtree's nodes in post-order. |
| Dictionaries.DictFree | proj1-code/dictionary.c:112-117 | `dict_free` releases nothing for NULL, and otherwise releases the nodes in post-order and then the dictionary. |
| Dictionaries.FreeReleasesAll | proj1-code/dictionary.c:103-117 | `dict_free` releases exactly the objects of the dictionary. |
| Dictionaries.FreeReleasesOnce | proj1-code/dictionary.c:103-117 | `dict_free` releases each object once, and the dictionary record last. |
| Dictionaries.DictInsert | proj1-code/dictionary.c:16-62 | A NULL dictionary or word gives -1 and changes nothing. Otherwise the result is 0 or -1, and 0 exactly when the word was not stored. The tree becomes the value insertion, with old nodes kept in place. Size grows by one on 0. On -1 the heap is unchanged. |
| Dictionaries.DictFind | proj1-code/dictionary.c:65-84 | The result is 0 or 1. It is 0 for a NULL dictionary, a NULL query or an empty tree, and otherwise 1 exactly when the search hits. |
| Dictionaries.DictPrint | proj1-code/dictionary.c:96-100 | Prints the in-order words, one per line, and nothing for NULL. |
| Dictionaries.WriteDictToText | proj1-code/dictionary.c:153-178 | Returns -1 and writes nothing exactly when the dictionary is NULL or the file cannot be opened. Otherwise it returns 0 and the file holds the in-order words, one per line. |
| Dictionaries.ReadDictFromText | proj1-code/dictionary.c:119-150 | NULL exactly when the file cannot be opened or a line fails to insert. Otherwise the result is a fresh valid dictionary holding the loaded tree. |
| Dictionaries.CaseMismatchScenario | proj1-code/dictionary.c:37-100 | After inserting "apple", "Banana" and "cherry", the listing is "Banana", "apple", "cherry". "APPLE" and "Cherry" are found, but "banana" and "grape" are not. |
| Dictionaries.CaseMismatchTree | proj1-code/dictionary.c:37-59 | The `strcmp` insertions put "Banana" left of "apple" and "cherry" right of it. |
| Dictionaries.CaseMismatchSearch | proj1-code/dictionary.c:71-83 | The `strcasecmp` walk misses "banana", because it turns right at "apple". |
| Dictionaries.CaseMismatchListing | proj1-code/dictionary.c:87-100 | The printed listing of that tree is "Banana\napple\ncherry\n". |
| SpellCheck.CStr | proj1-code/spell_check.c:24 | The C string in a buffer is the prefix before the first NUL and holds no NUL itself. |
| SpellCheck.CleanInPlace | proj1-code/spell_check.c:22-30 | The in-place loop leaves the cleaned word in the first `j` cells and a NUL at `j`, and changes no cell past `j`. The cleaned word is the token's letters, lower-cased. |
| SpellCheck.CleanIsLoweredLetters | proj1-code/spell_check.c:22-30 | The cleaned word is exactly the token's letters, in order, each lower-cased. |
| SpellCheck.CleanShape | proj1-code/spell_check.c:22-30 | The cleaned word is made of lower-case letters and is no longer than the token. |
| SpellCheck.CleanOfLower | proj1-code/spell_check.c:22-30 | A word of lower-case letters is left as it is. |
| SpellCheck.CleanIdempotent | proj1-code/spell_check.c:22-30 | Cleaning twice is the same as cleaning once. |
| SpellCheck.CleanEmpty | proj1-code/spell_check.c:22-30 | A token cleans to the empty word exactly when it has no letter. |
| SpellCheck.CheckToken | proj1-code/spell_check.c:21-33 | Copying, cleaning and looking up one token gives the checked word and the `dict_find` result on the tree consulted. |
| SpellCheck.PrintWord | proj1-code/spell_check.c:33-55 | The branches print the word's output: a leading space while the flag is set, the word, "[X]" on a miss, then '\n' or ' '. The flag is set by a miss and cleared by a line end. |
| SpellCheck.SpellCheckTokens | proj1-code/spell_check.c:21-56 | The token loop prints the layout of the checked tokens, starting with the flag clear. |
| SpellCheck.SpellCheckFile | proj1-code/spell_check.c:11-61 | An unopenable file gives -1 and "Spell check failed\n". Otherwise the result is 0 and the layout of the file's tokens. |
| SpellCheck.EmitCounts | proj1-code/spell_check.c:33-55 | One word's output holds one '\n' exactly when a newline follows it, and one '[' exactly when it was missed. |
| SpellCheck.LayoutCounts | proj1-code/spell_check.c:21-56 | The output holds one '\n' per word directly followed by '\n', and one "[X]" per missed word. |
| SpellCheck.RenderCounts | proj1-code/spell_check.c:21-56 | The same counts hold for a whole file of tokens. |
| SpellCheck.AllFoundIsPlain | proj1-code/spell_check.c:39-55 | When every word is found, the output is each word and its separator, with no marker and no extra space. |
| SpellCheck.ExtraSpace | proj1-code/spell_check.c:34-43 | While the flag is set the next output starts with a space. While it is clear, a non-empty word starts the output directly. |
| SpellCheck.LayoutAppend | proj1-code/spell_check.c:21-56 | Printing two runs of words in turn equals printing their concatenation; the second run starts with the flag the first one left. |
| SpellCheck.FlagMeaning | proj1-code/spell_check.c:34-52 | The flag is set after a run exactly in two cases: a word on the still-open last line was missed, or the flag was set before and no line has ended since. |
| SpellCheck.FlagAfterLineEnd | proj1-code/spell_check.c:46-49 | A line end clears the flag. |
| SpellCheck.LinesIndependent | proj1-code/spell_check.c:46-55 | Once a run of tokens ends a line, what follows is printed as if the file started there. |
| SpellCheck.HeloWrold | proj1-code/spell_check.c:21-56 | "Helo wrold!" and a newline, against the dictionary built by inserting "hello" then "world", prints "helo[X]  wrold[X]\n". |

## Left out

- `dictionary.h` is not part of this model. `MAX_WORD_LEN` and the `strcpy` into the fixed-size node buffer are therefore not modelled: words are unbounded.
- Dictionaries.Dictionary.Insert: does not model the buffer overflow that `strcpy` would cause on a word longer than the node's buffer, because the buffer size lives in `dictionary.h`.
- `malloc` failure, in `create_dictionary` and `dict_insert`, is not modelled. Allocation always succeeds in Dafny.
- Dictionaries.DictFree: models which objects are released and in what order, not the release itself. Dafny has no `free`, so a released node stays readable in the model.
- CStrings.Strcmp: only the sign of the C result is modelled (-1, 0, 1), because every caller only tests the sign. Characters are compared as code points.
- CStrings.Strcasecmp: folds only the ASCII letters, as the "C" locale does. Other locales are not modelled.
- File and console I/O are parameters. `fopen` success is a boolean or an `Option`. A file's text is a `string`. Printed output is returned as a `string`. `fclose` is not modelled.
- TextFormat.FgetsLines: assumes a buffer large enough for every line. `fgets` splitting a long line at `MAX_WORD_LEN - 1` characters is not modelled. A NUL inside a line (seen by `strlen`) is not modelled either.
- SpellCheck.Token: the `fscanf("%s")` tokenizer and the `fgetc` that follows each token are abstracted. A file is given as its tokens, each with a flag saying whether the next character is '\n'. Whitespace handling inside `fscanf` is not modelled. Because `fgetc` reads only the one character after a token, a line whose last word is followed by other whitespace (a space, or '\r' before the '\n') loses its line break in the output. The model captures this only through the token's flag.
- `main` and the command loop in `spell_check.c` (add, lookup, print, load, save, check, exit) are not modelled. They are glue around the operations above.
- The nested function `write_recursive` in `write_dict_to_text_file` is modelled by the shared in-order traversal `EmitInOrder`. `print_in_order` uses the same traversal.
