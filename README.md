# includeme index generator — a Dafny model

includeme is an Emacs package that inserts the `#include` line a C or C++
symbol needs. Its index comes from an offline generator, `generate.py`. The
generator:

- reads the synopsis of every man page in sections 2 and 3;
- reads the cppreference symbol indexes;
- drops or salvages symbols without a header;
- merges the man-page symbols in;
- adds short-name aliases to the C++ index (`log` for `std::log`);
- writes each index as a balanced binary search tree in Emacs Lisp
  syntax (`make_happy_tree`).

This project models the logic of that generator and proves properties
about it. It leaves out the file, XML and HTML handling around that logic.

Modules:

- `Text` (`text.dfy`) holds the string helpers:
  - prefix and substring tests;
  - Python's string order (`Less`): lexicographic by character, with a
    proper prefix first; it is proved a strict total order;
  - `Join`/`Split` with their round trip.
- `HappyTree` (`happy_tree.dfy`) models `make_happy_tree` without the
  printing:
  - the sort by name;
  - `do_node`'s choice of the middle element (with Python 2's floor
    division);
  - the resulting `Tree`;
  - a binary search `Find` that walks the tree by comparing names, as the
    docstring describes the lookup.
- `TreeText` (`tree_text.dfy`) models the printed form:
  - `Serialize` writes exactly what `do_node` writes;
  - `IndexFile` is the whole `.el` file;
  - a reader, `ReadTree`, recovers the tree from the text. This shows that
    the output determines the tree for printable trees (`Printable`):
    - no name contains `"`;
    - every header is a non-empty atom other than `.`, with no space or `)`;
    - no pointer contains `)`.

    The generator escapes nothing, so for other names and headers the text
    may not determine the tree.
- `ManPages` (`man_pages.dfy`) models `parse_man`:
  - a hand-written matcher for `#include <(.*?)>`;
  - the line loop as a method (`ScanLines`/`ParseMan`);
  - a specification function, `Scan`;
  - lemmas about the include set and the DESCRIPTION stop.
- `SymbolTables` (`symbol_tables.dfy`) models the dictionary passes of
  `main`:
  - the `shadows` renaming;
  - collecting the man-page symbols;
  - `filter_syms`;
  - the merge of the man-page symbols;
  - decanonicalisation.

  Dictionaries are Dafny maps. Where the source loops over a dictionary, the
  method takes the key sequence as a parameter (`Enumerates`), because
  Python 2 leaves dictionary order unspecified.
- `IndexOutput` (`index_output.dfy`) joins the two halves. `main` hands
  each finished table to `make_happy_tree` as `syms.items()`:
  - a header set (`SymbolTables.Entry.HeaderSet`) becomes a header list
    (`HappyTree.Value.Headers`);
  - an alias (`Entry.Alias`) becomes a pointer (`Value.Pointer`).

  `EntryValue` and `Items` do this conversion. `FindIndex` proves that the
  tree built from a table finds exactly that table's entries.

Where the code and its prose description differ, the model follows the code.
One case: a synopsis line that names a function while no include has been
seen hits `continue` (generate.py:105-107). That also skips the line's
DESCRIPTION test, so such a line never ends the scan. `Skipped` and `Scan`
model this.

## Model

| member | source | states |
|---|---|---|
| Text.LessTotal | generate.py:60 | Two different names are always ordered one way or the other, so sorting by name is well defined |
| Text.LessTransitive | generate.py:60 | The name order used by the sort is transitive |
| Text.SplitJoin | generate.py:72 | Headers with no space in them are recovered by splitting their space-joined text |
| HappyTree.Sort | generate.py:60 | The sorted pairs are in name order and are a permutation of the input |
| HappyTree.SortStrict | generate.py:60 | With distinct names (dictionary items) the sorted sequence is strictly increasing by name |
| HappyTree.BuildRange | generate.py:62-76 | `do_node` on `[start, end)` yields `nil` exactly when the range is empty |
| HappyTree.Pivot | generate.py:66 | The pivot lies in `[start, end)` and the part left of it is as long as the part right of it, or one longer |
| HappyTree.BuildInOrder | generate.py:62-76 | The in-order traversal of the tree built on `[start, end)` is exactly that slice |
| HappyTree.BuildSize | generate.py:62-76 | The tree built on `[start, end)` has `end - start` nodes |
| HappyTree.BuildBalanced | generate.py:62-76 | At every node of the built tree the left subtree has as many nodes as the right one, or one more |
| HappyTree.BuildHeight | generate.py:62-76 | The tree built on `n` elements has height ceil(log2(n + 1)) |
| HappyTree.BitLengthIsCeilLog | generate.py:66 | The height bound is the least `h` with `n < 2^h` |
| HappyTree.MakeTree | generate.py:60-77 | The tree `make_happy_tree` builds has one node per input pair |
| HappyTree.MakeTreeInOrder | generate.py:60-77 | The built tree's in-order traversal is the input sorted by name: every pair appears exactly once, in name order |
| HappyTree.MakeTreeBalanced | generate.py:60-77 | The built tree has one node per pair, is balanced at every node, and is `nil` exactly for an empty input |
| HappyTree.MakeTreeHeight | generate.py:60-77 | The built tree's height is ceil(log2(n + 1)) for `n` pairs |
| HappyTree.BuildFindsPresent | generate.py:62-76 | In a tree built on strictly sorted pairs, a search by name finds every pair of the range with its value |
| HappyTree.BuildFindsAbsent | generate.py:62-76 | A search for a name outside the range finds nothing |
| HappyTree.Find | generate.py:42-57 | A search that finds a name returns a value the tree really holds for that name |
| HappyTree.FindMakeTree | generate.py:42-57 | With distinct names, searching the built tree gives `v` for `key` exactly when `(key, v)` was an input pair |
| HappyTree.FindMakeTreeAbsent | generate.py:42-57 | A name that was not given is not found |
| TreeText.Serialize | generate.py:62-76 | The text `do_node` writes starts with `nil` exactly when the tree is empty |
| TreeText.SerializeNodeNotNil | generate.py:70-76 | The text of a node, whatever follows it, never starts with `nil`, so the reader can tell a node from an empty subtree |
| TreeText.TreeLiteral | generate.py:61-77 | The written tree is quoted with `'` and is `'nil` exactly for an empty input |
| TreeText.IndexFile | generate.py:244-249 | Each `.el` file starts with `(setq ` and ends with `)` and a newline |
| TreeText.IndexFileReadsBack | generate.py:247-249 | For printable items, after `(setq NAME '`, the text of a whole `.el` file reads back as the built tree, with only the closing `)` and newline left over |
| TreeText.ReadValueText | generate.py:68-72 | A printed pointer with no `)`, or a printed list of atom headers, reads back as the same value |
| TreeText.ReadNodeHead | generate.py:70-72 | For a name without `"` and a printable value, a printed node line `(("name" ...)` reads back as its name and value, and the reader resumes after the newline |
| TreeText.ReadSerialize | generate.py:62-76 | A printable tree's text, followed by any text, reads back as the same tree with that text left over |
| TreeText.ReadSerializeAll | generate.py:62-77 | A printable tree's text reads back as the same tree with nothing left over |
| TreeText.TreeLiteralReadsBack | generate.py:48-61 | The quoted tree `make_happy_tree` writes starts with `'`. For printable items (no `"` in a name, atom headers, no `)` in a pointer) it reads back as the tree built from the input |
| ManPages.MatchAtCapturesToStop | generate.py:94 | A match of `#include <(.*?)>` at a position captures exactly the text up to the first `>` after the opener |
| ManPages.MatchAtUnique | generate.py:94 | Two matches at one position capture the same text |
| ManPages.SearchFromSpec | generate.py:94 | The search from a position returns a match with no match before it, or none when there is none |
| ManPages.IncludeTarget | generate.py:94 | A header is returned only when the include pattern matches at some position of the line with that header as its capture |
| ManPages.IncludeTargetSpec | generate.py:94-100 | The header found on a line is the capture of the leftmost match; with no match there is no header |
| ManPages.ScanLines | generate.py:91-110 | The line loop returns the scan specification's reports, each with a non-empty include set |
| ManPages.ParseMan | generate.py:90-110 | `parse_man` with the source's include pattern yields the specification's reports, each with a non-empty include set |
| ManPages.ScanReportsNonEmpty | generate.py:105-108 | No function is reported while the include set is empty |
| ManPages.ScanYieldsFromLines | generate.py:101-108 | Every report comes from a synopsis line naming that function and carries a copy of every header seen up to that line |
| ManPages.ScanSnapshotsGrow | generate.py:91-100 | The include set never shrinks: every snapshot contains the starting set and each one contains those before it |
| ManPages.ScanAtMostOnePerLine | generate.py:101-108 | Each report names the function of one line, and successive reports come from strictly later lines, so no line yields two reports and there are no more reports than lines |
| ManPages.ScanStopsAtDescription | generate.py:109-110 | Lines after the first non-skipped DESCRIPTION line have no effect on the result |
| SymbolTables.ReplacementsAreNotShadowed | generate.py:13-38 | No C++ replacement header is itself a shadowed C header |
| SymbolTables.ShadowImage | generate.py:202-203 | Renaming the headers of a set gives an empty set exactly when the set was empty |
| SymbolTables.ShadowImageProperties | generate.py:202-203 | Renaming removes every shadowed header and keeps every other one. It is the identity with nothing shadowed, is idempotent, never grows the set and keeps it non-empty |
| SymbolTables.FirstReport | generate.py:124-131 | A name has a first report exactly when some report names it. The include set given is that of the earliest report naming it: no report before it names the function |
| SymbolTables.CollectManSyms | generate.py:124-131 | The man-page table holds exactly the reported names, each with the include set of its first report |
| SymbolTables.Filtered | generate.py:193-216 | A symbol is kept exactly when it has a header or can be salvaged from the C or the man table. A kept symbol without a header is a `std::` name |
| SymbolTables.FilterSyms | generate.py:193-216 | Headered symbols keep their one header. A headerless `std::x` is salvaged from the C table, else from the man table, with the renamed headers. Anything else is dropped |
| SymbolTables.SalvagedHeaders | generate.py:198-214 | A salvaged symbol is a `std::` name and gets a non-empty header set with no shadowed header |
| SymbolTables.FilterCAsWritten | generate.py:199-217 | The C pass as written keeps only names of the raw C index. When it does not fail, every headerless name it keeps is salvaged from the man table |
| SymbolTables.FilterCAsWrittenFails | generate.py:199-201 | The C pass as written fails on a headerless `std::abs` next to a C record `abs` |
| SymbolTables.FilterC | generate.py:217 | The C pass salvages only from the man pages and agrees with the code wherever the code does not fail |
| SymbolTables.FilterTables | generate.py:217-218 | Both passes keep only names of their raw index. Each headerless `std::x` that the filtered C table can salvage is in the C++ table, with the renamed headers of `x` |
| SymbolTables.CppSalvagesFromFilteredC | generate.py:199-218 | A headerless `std::x` whose C symbol `x` has a shadowed header `h` is salvaged into the C++ table as `{shadows[h]}` |
| SymbolTables.MergeLoop | generate.py:225-229 | The merge adds man-page names missing from the C table unchanged. It adds one to the C++ table, with renamed headers, when neither it nor its `std::` form is there; existing entries are kept |
| SymbolTables.MergeManSyms | generate.py:225-229 | The merge with the shadow renaming: the same tables, and no header added to the C++ table is a shadowed C header |
| SymbolTables.LastSepBelow | generate.py:234 | The result is the last position below `k` where `::` starts, or none when there is none |
| SymbolTables.ShortNameSpec | generate.py:233-236 | A name has a short name exactly when it contains `::`. The short name is the text after the last `::`: the name ends with `::` and the short name, no `::` starts after that one, and the short name contains no `::` |
| SymbolTables.FirstWithShort | generate.py:232-241 | The result is a name of the iteration order with the given short name, and no earlier name has that short name. There is no result exactly when no name has it |
| SymbolTables.AddAlias | generate.py:238-241 | Existing entries are kept. A name whose short name is not yet a key adds exactly that key, as an alias to the name; a name without a short name, or whose short name is taken, changes nothing |
| SymbolTables.DecanonicalizedAll | generate.py:232-241 | After the pass over every name, each qualified name's short name is a key, and each alias points to a header entry |
| SymbolTables.Decanonicalize | generate.py:232-241 | Existing entries are never overwritten. A short name is added exactly when some name has it, as an alias to the first such name. Every qualified name's short name ends up in the index, and every alias points to a header entry |
| IndexOutput.Items | generate.py:248 | `syms.items()` lists each key of the iteration order with its entry converted to a tree value |
| IndexOutput.EnumeratesDistinct | generate.py:248 | A dictionary's iteration order lists each key once |
| IndexOutput.FindIndex | generate.py:244-249 | Searching the tree written for a table finds each key of the table with its entry, and finds nothing for any other name. When the lister lists each set exactly (`Lists`), a header set's key is found with a list of exactly its headers |
| IndexOutput.FindCIndex | generate.py:244-249 | Searching the tree written for the C table, whose entries are all header sets, finds each C name with its header list, and nothing else. With a lister that lists each set exactly (`Lists`), that list holds each of the name's headers once and nothing else |

## Left out

- `get_mans` (generate.py:80-87): listing directories and opening (gzipped) files. `ParseMan` takes the lines of one page.
- The function-name pattern of the synopsis (generate.py:102): it is a parameter (`Extractor`); the model covers the loop policy, not that regex.
- XML parsing of the cppreference indexes and the typedef-alias and backlink passes (generate.py:134-172): the model starts from the resulting symbol tables.
- Reading the HTML pages and the `Defined in header` scrape (generate.py:175-189): a symbol's header is an input (`Option<string>`).
- Every `print` to stdout or stderr, including the conflict and discard diagnostics.
- Writing the `.el` files (generate.py:244-249): the model gives the text written (`IndexFile`), not the file.
- Turning each set of headers into a list for printing: `" ".join` over a Python set has no fixed order. `IndexOutput.EntryValue` takes the conversion as a parameter (`Lister`). A `Lister` is any function from sets to sequences. The content guarantee holds only under `Lists`, which says the list holds each element of the set once and nothing else; the order stays open.
- Escaping in the printed tree: the generator writes names and headers as they are (generate.py:70, 72). The reading-back lemmas hold only for printable trees: no `"` in a name, headers that are non-empty atoms other than `.` without space or `)`, and no `)` in a pointer. For a name with `"` (a literal operator such as `operator""s`), the text does not determine the tree.
- The Emacs Lisp side that reads the index is not part of this model. `HappyTree.Find` is the search the tree's layout supports, and it is used only to state what the tree guarantees.
- `HappyTree.Sort`: modelled as a stable insertion sort on a sequence rather than an in-place sort of the items list. With the distinct names of dictionary items, the sorted result is the same.
- `SymbolTables.FilterSyms`: the C pass is modelled by its corrected form `FilterC`. The TypeError of the code as written is modelled as the failure value of `FilterCAsWritten` (see Findings).

## Findings

| source | as written | input that shows it | evidently intended | confidence | as-written member | corrected member |
|---|---|---|---|---|---|---|
| generate.py:199-217 | In the C pass, `filter_syms('C', c_syms)` tests `c_syms[name[5:]] & set(shadows.keys())`. At that point `c_syms` still holds the raw symbol records (dicts), so `dict & set` raises TypeError. | A headerless C symbol `std::abs` and a C symbol `abs` | Salvage from C only in the C++ pass, after `c_syms` has become a name-to-headers table; in the C pass only the man pages can salvage | low; not executed. The cppreference C index may never list a `std::` name, so the branch may never be reached | SymbolTables.FilterCAsWritten, SymbolTables.FilterCAsWrittenFails | SymbolTables.FilterC |
