# Python course tasks, modelled and proved in Dafny

This project models the core of a collection of Python programming-course
solutions and proves properties of that model. The core has three groups.

- **The bytecode VM's frame machine** (`vm.py`). A `Frame` holds an operand
  stack, three name scopes (locals, globals, builtins) and a return value. It
  runs a list of instructions in order: `RESUME`, `PUSH_NULL`, `PRECALL`,
  `CALL`, `LOAD_NAME`, `LOAD_GLOBAL`, `LOAD_CONST`, `RETURN_VALUE`,
  `RETURN_CONST`, `POP_TOP` and `STORE_NAME`. `VirtualMachine.run` gives the
  root frame one dictionary as both globals and locals.
- **Argument binding** (`arg_binding.py`). This follows section 6.3.4
  ("Calls") of the Python Language Reference. Parameter names are cut from a
  code object's `co_varnames`. Positionals, keywords, defaults, `*args` and
  `**kwargs` are bound rule by rule, and six `TypeError` messages can result.
  Beside it, `codeops.py` counts opcode names over a tree of nested code
  objects.
- **Algorithmic exercises**, each with a crisp contract:
  - the fish-and-shrimp game of life;
  - an LRU cache decorator;
  - an alien alphabet by topological sort with cycle detection;
  - a banner search over an inverted index with a k-way heap intersection;
  - three ways of flattening nested dictionaries, and dictionary inversion;
  - two-way and k-way merges, and sorted-list filtering;
  - binary search, and the median of two sorted arrays;
  - a small type lattice, and the median of three;
  - fizz-buzz, path normalisation, the Caesar cipher, `wc`-style counting and
    git-log line formatting;
  - three NumPy array exercises over integer sequences.

Each module follows the form of its source. Where the Python code changes a
field, a list or a dictionary step by step, the model is a class or a method
with loops and invariants. Each such method is proved against a pure
specification function, and lemmas state the promised properties of that
function. Where the Python code is an expression, the model is a function.

The files:

| file | module | source |
|---|---|---|
| `wrappers.dfy` | `Wrappers` | `Option`, shared by the models |
| `text.dfy` | `Text` | `str.split(sep)`, `str.split()` and ASCII lower-casing |
| `sorting.dfy` | `Sorting` | sortedness and a reference insertion sort |
| `vm.dfy` | `Vm` | `04.3.HW1/tasks/vm/vm.py` |
| `arg_binding.dfy` | `ArgBinding` | `04.2.Bytecode/tasks/arg_binding/arg_binding.py` |
| `codeops.dfy` | `CodeOps` | `04.2.Bytecode/tasks/codeops/codeops.py` |
| `life_game.dfy` | `LifeGame` | `05.1.Classes/tasks/life_game/life_game.py` |
| `lru_cache.dfy` | `LruCache` | `04.1.NamespacesAndDecorators/tasks/lru_cache/lru_cache.py` |
| `alphabet.dfy` | `Alphabet` | `02.1.DataStructures_hard/tasks/alphabet/alphabet.py` |
| `banner_search.dfy` | `BannerSearch` | `02.1.DataStructures_hard/tasks/banner_search_system/banner_search_system.py` |
| `traverse_dictionary.dfy` | `TraverseDictionary` | `02.1.DataStructures/tasks/traverse_dictionary/traverse_dictionary.py` |
| `reverse_dict.dfy` | `ReverseDict` | `02.1.DataStructures/tasks/reverse_dict/reverse_dict.py` |
| `merge_k.dfy` | `MergeK` | `02.1.DataStructures/tasks/merge_lists_2/merge_lists.py` |
| `merge_lists.dfy` | `MergeLists` | `01.2.BasicTypes/tasks/merge_lists/merge_lists.py` |
| `filter_list.dfy` | `FilterList` | `01.2.BasicTypes/tasks/filter_list_by_list/filter_list_by_list.py` |
| `bin_basic.dfy` | `BinBasic` | `01.2.BasicTypes/tasks/bin_basic/bin_basic.py` |
| `bin_tricky.dfy` | `BinTricky` | `01.2.BasicTypes_hard/tasks/bin_tricky/bin_tricky.py` |
| `common_type.dfy` | `CommonType` | `01.2.BasicTypes_hard/tasks/common_type/common_type.py` |
| `middle_value.dfy` | `MiddleValueOfTriple` | `01.2.BasicTypes/tasks/middle_value_of_triple/middle_value_of_triple.py` |
| `fizz_buzz.dfy` | `FizzBuzz` | `01.2.BasicTypes/tasks/fizz_buzz/fizz_buzz.py` |
| `normalize_path.dfy` | `NormalizePath` | `03.1.FunctionsStringsIO/tasks/normalize_path/normalize_path.py` |
| `caesar_cipher.dfy` | `CaesarCipher` | `03.1.FunctionsStringsIO/tasks/caesar_cipher/caesar_cipher.py` |
| `count_util.dfy` | `CountUtil` | `03.1.FunctionsStringsIO/tasks/count_util/count_util.py` |
| `git_log.dfy` | `GitLog` | `03.1.FunctionsStringsIO/tasks/git_log/git_log.py` |
| `max_element.dfy` | `MaxElement` | `03.2.NumpyAndPandas/tasks/max_element/max_element.py` |
| `nonzero_product.dfy` | `NonzeroProduct` | `03.2.NumpyAndPandas/tasks/nonzero_product/nonzero_product.py` |
| `add_zeros.dfy` | `AddZeros` | `03.2.NumpyAndPandas/tasks/add_zeros/add_zeros.py` |

Some things are parameters rather than modelled code:
- The VM's callables are abstract values. `CALL` applies a function
  `apply(id, args)` supplied with the environment.
- The builtins dictionary is a parameter of `Vm.RunModule`.
- The LRU cache's wrapped function is a parameter of the `Cache` constructor.
- `reformat_git_log` reads and writes streams; here the input is a sequence of
  lines and the output is the sequence of lines written.

## Model

| member | source | states |
|---|---|---|
| Vm.PopN | 04.3.HW1/tasks/vm/vm.py:41-51 | nothing is lost: remaining stack plus removed values is the old stack; n <= 0 removes nothing; 0 < n <= depth removes exactly n, deepest first; n >= depth empties the stack |
| Vm.Frame.Top | 04.3.HW1/tasks/vm/vm.py:32-33 | raises IndexError exactly when the stack is empty, otherwise gives the topmost value |
| Vm.Frame.Pop | 04.3.HW1/tasks/vm/vm.py:35-36 | on an empty stack raises IndexError and changes nothing; otherwise returns the top and leaves exactly the rest below it |
| Vm.Frame.Push | 04.3.HW1/tasks/vm/vm.py:38-39 | the values go on top in argument order and everything below is unchanged |
| Vm.Frame.Popn | 04.3.HW1/tasks/vm/vm.py:41-51 | the frame's stack and the result are the split that `PopN` specifies |
| Vm.Frame.constructor | 04.3.HW1/tasks/vm/vm.py:20-30 | a frame over the given code and scopes, with an empty stack and a return value of None |
| Vm.Frame.CallOp | 04.3.HW1/tasks/vm/vm.py:67-75 | the new frame state and error are exactly the `CALL` transition of the observable state |
| Vm.Frame.LoadNameOp | 04.3.HW1/tasks/vm/vm.py:77-91 | the new frame state and error are exactly the `LOAD_NAME` transition |
| Vm.Frame.LoadGlobalOp | 04.3.HW1/tasks/vm/vm.py:94-101 | the new frame state and error are exactly the `LOAD_GLOBAL` transition |
| Vm.Frame.ReturnValueOp | 04.3.HW1/tasks/vm/vm.py:110-115 | the new frame state and error are exactly the `RETURN_VALUE` transition |
| Vm.Frame.PopTopOp | 04.3.HW1/tasks/vm/vm.py:124-129 | the new frame state and error are exactly the `POP_TOP` transition |
| Vm.Frame.StoreNameOp | 04.3.HW1/tasks/vm/vm.py:152-158 | the new frame state and error are exactly the `STORE_NAME` transition, writing through to the shared dictionary when locals are globals |
| Vm.Frame.Step | 04.3.HW1/tasks/vm/vm.py:54-55 | dispatching one instruction changes the frame exactly as the pure transition of that instruction says, including `RESUME`, `PUSH_NULL`, `PRECALL`, `LOAD_CONST` and `RETURN_CONST` |
| Vm.Frame.Run | 04.3.HW1/tasks/vm/vm.py:53-56 | the frame ends in the state of running the instructions in list order to the first exception, and returns that exception or the last return value |
| Vm.LoadNameLookup | 04.3.HW1/tasks/vm/vm.py:84-91 | succeeds iff some scope holds the name; pushes the binding from locals, else globals, else builtins; on NameError nothing changes; no scope is altered |
| Vm.LoadGlobalDepth | 04.3.HW1/tasks/vm/vm.py:99-101 | with the name in builtins the depth grows by exactly two, the builtin then None, above the unchanged stack; otherwise KeyError and nothing changes |
| Vm.StoreNameEffect | 04.3.HW1/tasks/vm/vm.py:152-158 | the depth drops by one, the popped value is bound to the name, every other local binding is unchanged, and unshared globals are untouched |
| Vm.CallDepth | 04.3.HW1/tasks/vm/vm.py:67-75 | on a well-formed call the net depth change is -(argc+1), the stack below is unchanged and the callable's result takes the callable's place |
| Vm.CallErrors | 04.3.HW1/tasks/vm/vm.py:72-75 | a stack too shallow for the marker and callable raises IndexError, a non-callable raises TypeError, and otherwise the call succeeds |
| Vm.ReturnConstKeepsStack | 04.3.HW1/tasks/vm/vm.py:117-122 | `RETURN_CONST` changes only the return value, never the stack or the scopes |
| Vm.ExecAppend | 04.3.HW1/tasks/vm/vm.py:53-56 | running `a + b` is running `a`, then `b` from where `a` left off, unless `a` raised |
| Vm.ExecStops | 04.3.HW1/tasks/vm/vm.py:53-56 | once an instruction raises, no later instruction runs |
| Vm.ExecNoReturn | 04.3.HW1/tasks/vm/vm.py:53-56 | code with no return instruction leaves the return value as it was, so a frame without one returns None |
| Vm.ReturnConstLast | 04.3.HW1/tasks/vm/vm.py:117-122 | after the last `RETURN_CONST v`, with no return instruction after it, the frame returns v |
| Vm.ReturnValueLast | 04.3.HW1/tasks/vm/vm.py:110-115 | after the last `RETURN_VALUE`, with no return instruction after it, the frame returns the value that was on top of the stack before it |
| Vm.RunReturnsPopped | 04.3.HW1/tasks/vm/vm.py:53-56 | from an empty start, a run whose last return is `RETURN_VALUE` returns the value it popped |
| Vm.ExecShared | 04.3.HW1/tasks/vm/vm.py:210-217 | when globals and locals are one dictionary they stay one dictionary through any run |
| Vm.StoreThenLoad | 04.3.HW1/tasks/vm/vm.py:152-158 | in the module frame a stored name is visible through both locals and globals, and loading it back restores the stack |
| Vm.RunModule | 04.3.HW1/tasks/vm/vm.py:210-217 | runs the code in a fresh frame whose globals and locals are the same empty dictionary, returning what that run gives |
| ArgBinding.ParamsOf | 04.2.Bytecode/tasks/arg_binding/arg_binding.py:26-40 | the parameter names are the first entries of `co_varnames` in the order positional-only, positional-or-keyword, keyword-only, `*args` (flag 4), `**kwargs` (flag 8), with the counts the code object gives |
| ArgBinding.ParamsNamesOk | 04.2.Bytecode/tasks/arg_binding/arg_binding.py:30-40 | the five groups of parameter names are pairwise disjoint and each without repeats |
| ArgBinding.DefaultsAlign | 04.2.Bytecode/tasks/arg_binding/arg_binding.py:46-50 | the defaults attach to the last `len(__defaults__)` positional names, in order, and to no other name |
| ArgBinding.DefaultMap | 04.2.Bytecode/tasks/arg_binding/arg_binding.py:47-50 | the loop builds the default map the alignment rule specifies |
| ArgBinding.ZipPrefix | 04.2.Bytecode/tasks/arg_binding/arg_binding.py:49 | `zip` pairs names and values up to the shorter one |
| ArgBinding.BindsUnique | 04.2.Bytecode/tasks/arg_binding/arg_binding.py:52-115 | the binding rules leave no choice: two successful bindings of one call are equal |
| ArgBinding.PositionalInOrder | 04.2.Bytecode/tasks/arg_binding/arg_binding.py:63-65 | in a successful binding, positional argument i is bound to the i-th positional name |
| ArgBinding.PosonlyCollected | 04.2.Bytecode/tasks/arg_binding/arg_binding.py:103-105 | with `**kwargs`, a keyword naming a positional-only parameter is collected into `**kwargs` rather than rejected |
| ArgBinding.NamesPosonly | 04.2.Bytecode/tasks/arg_binding/arg_binding.py:55-58 | reports exactly whether some keyword names a positional-only parameter |
| ArgBinding.BindPositional | 04.2.Bytecode/tasks/arg_binding/arg_binding.py:63-65 | binds positional name i iff argument i exists, with that argument, and binds nothing else |
| ArgBinding.BindKeywords | 04.2.Bytecode/tasks/arg_binding/arg_binding.py:74-78 | reports a clash iff a keyword names a positional-or-keyword parameter already bound positionally; otherwise the keywords are moved into the binding |
| ArgBinding.BindKwonly | 04.2.Bytecode/tasks/arg_binding/arg_binding.py:85-87 | every keyword-only parameter passed by keyword is moved from the remaining keywords into the binding |
| ArgBinding.FillPositional | 04.2.Bytecode/tasks/arg_binding/arg_binding.py:89-94 | reports a missing argument iff some positional parameter is unbound and has no default; otherwise every positional is bound |
| ArgBinding.FillKwonly | 04.2.Bytecode/tasks/arg_binding/arg_binding.py:96-101 | reports a missing argument iff some keyword-only parameter is unbound and has no keyword default; otherwise every keyword-only is bound |
| ArgBinding.Finish | 04.2.Bytecode/tasks/arg_binding/arg_binding.py:103-115 | the remaining keywords are exactly the leftovers, and with them in `**kwargs`, or with `**kwargs` absent, the binding covers exactly the declared names |
| ArgBinding.ErrorAt | 04.2.Bytecode/tasks/arg_binding/arg_binding.py:55-107 | definitional: the error raised is the first violated rule in source order: positional-only as keyword, too many positionals, multiple values, missing positional, missing keyword-only, too many keywords |
| ArgBinding.NoError | 04.2.Bytecode/tasks/arg_binding/arg_binding.py:55-107 | definitional: when no rule is violated no error is raised |
| ArgBinding.BindKeywordPasses | 04.2.Bytecode/tasks/arg_binding/arg_binding.py:74-115 | the passes after positional binding end in the verdict the rules give: the first error, or the complete binding |
| ArgBinding.CollectLeftover | 04.2.Bytecode/tasks/arg_binding/arg_binding.py:103-115 | leftover keywords become `**kwargs` or raise ERR_TOO_MANY_KW_ARGS without it; `*args` and `**kwargs` default to () and {} |
| ArgBinding.BindArgs | 04.2.Bytecode/tasks/arg_binding/arg_binding.py:14-115 | raises exactly when some rule is violated, with the error of the first one; otherwise returns a dict whose keys are exactly the declared parameters, each bound as the rules say |
| ArgBinding.MessageDistinct | 04.2.Bytecode/tasks/arg_binding/arg_binding.py:6-11 | each error reason has its own `ERR_*` description, so two errors have the same message iff they have the same reason |
| CodeOps.CountOperations | 04.2.Bytecode/tasks/codeops/codeops.py:6-21 | the counter is the recursive opcode histogram of the code tree, and its total is the number of instructions in the tree |
| CodeOps.Total | 04.2.Bytecode/tasks/codeops/codeops.py:12-21 | the counts sum to the number of instructions in the tree, nested ones included |
| CodeOps.FlatHistogram | 04.2.Bytecode/tasks/codeops/codeops.py:13-15 | for code with no nested code objects the result is the plain histogram of opnames |
| CodeOps.TopLevelCounted | 04.2.Bytecode/tasks/codeops/codeops.py:14-15 | every instruction's opname has a count of at least 1 |
| LifeGame.NextCell | 05.1.Classes/tasks/life_game/life_game.py:47-60 | the new value is 0 to 3, and a rock only comes from a rock |
| LifeGame.NextRules | 05.1.Classes/tasks/life_game/life_game.py:30-60 | a rock stays a rock and nothing else becomes one; fish and shrimp survive iff 2 or 3 neighbours of their kind; an empty cell becomes a fish on 3 fish neighbours, else a shrimp on 3 shrimp neighbours; any other value becomes empty |
| LifeGame.NeighboursAtMostEight | 05.1.Classes/tasks/life_game/life_game.py:36-39 | the clipped window holds at most eight neighbours besides the cell itself |
| LifeGame.NextLocal | 05.1.Classes/tasks/life_game/life_game.py:24-46 | a cell's next value depends only on the previous generation's cell and its window |
| LifeGame.CountAround | 05.1.Classes/tasks/life_game/life_game.py:34-46 | the counters are the fish and shrimp in the clipped window of the snapshot, the cell itself excluded |
| LifeGame.Game.constructor | 05.1.Classes/tasks/life_game/life_game.py:7-10 | a fresh grid of the input's dimensions holding a copy of the input |
| LifeGame.Game.Step | 05.1.Classes/tasks/life_game/life_game.py:23-60 | every cell is rewritten once from a snapshot of the previous generation, giving the next generation, with the dimensions kept |
| LifeGame.Game.NextGeneration | 05.1.Classes/tasks/life_game/life_game.py:63-65 | steps once and returns the game's own grid, not a copy, holding the next generation of the old one |
| LruCache.SortIncreasing | 04.1.NamespacesAndDecorators/tasks/lru_cache/lru_cache.py:20 | sorting distinctly named keyword items orders them strictly by name |
| LruCache.SameKey | 04.1.NamespacesAndDecorators/tasks/lru_cache/lru_cache.py:18-22 | two calls get the same key iff they have the same positional arguments and the same keyword items, in whatever order |
| LruCache.MakeKeyRecordsCall | 04.1.NamespacesAndDecorators/tasks/lru_cache/lru_cache.py:18-22 | the key keeps the positional arguments and the bag of keyword items |
| LruCache.MoveToEnd | 04.1.NamespacesAndDecorators/tasks/lru_cache/lru_cache.py:31 | moving a key to the recent end keeps the same keys, once each, with that key last |
| LruCache.AdmitBound | 04.1.NamespacesAndDecorators/tasks/lru_cache/lru_cache.py:35-38 | after an insertion and a possible eviction the store holds at most `max(max_size, 0)` keys, and only the oldest key is dropped |
| LruCache.Cache.constructor | 04.1.NamespacesAndDecorators/tasks/lru_cache/lru_cache.py:24-25 | an empty store for the given size and function |
| LruCache.Cache.Call | 04.1.NamespacesAndDecorators/tasks/lru_cache/lru_cache.py:28-40 | the result is what the function gives for the call; a hit returns the stored value and moves the key last; a miss stores the result last and, over capacity, evicts exactly the least recently used key; the store never exceeds `max(max_size, 0)` keys |
| LruCache.KeywordCallRaises | 04.1.NamespacesAndDecorators/tasks/lru_cache/lru_cache.py:18-32 | as written, the key of any call with keyword arguments holds a list, so the membership test raises TypeError whatever the argument values |
| LruCache.PositionalCallRaises | 04.1.NamespacesAndDecorators/tasks/lru_cache/lru_cache.py:18-30 | a call without keyword arguments raises TypeError at the membership test exactly when some positional argument is unhashable, as in `f([1, 2])` |
| LruCache.KeywordCallExample | 04.1.NamespacesAndDecorators/tasks/lru_cache/lru_cache.py:18-32 | the call `f(1, x=2)` on an empty cache raises TypeError as written |
| Alphabet.FirstDiffMeaning | 02.1.DataStructures_hard/tasks/alphabet/alphabet.py:63-66 | the pair found is at the first position where the words differ; without one, one word is a prefix of the other |
| Alphabet.GraphVertices | 02.1.DataStructures_hard/tasks/alphabet/alphabet.py:57-60 | the vertices are exactly the characters of the words, in first-seen order |
| Alphabet.GraphEdges | 02.1.DataStructures_hard/tasks/alphabet/alphabet.py:62-66 | c -> d is an edge iff some adjacent pair of words first differs with c against d |
| Alphabet.BuildGraph | 02.1.DataStructures_hard/tasks/alphabet/alphabet.py:47-68 | the loops build exactly the graph of the words |
| Alphabet.AddVertices | 02.1.DataStructures_hard/tasks/alphabet/alphabet.py:57-60 | every character becomes a key once, in first-seen order, with an empty successor set |
| Alphabet.AddPairEdge | 02.1.DataStructures_hard/tasks/alphabet/alphabet.py:63-66 | one adjacent pair adds at most the one edge at its first difference |
| Alphabet.TopologicalAcyclic | 02.1.DataStructures_hard/tasks/alphabet/alphabet.py:33-42 | a graph with a topological order of all its vertices has no cycle |
| Alphabet.ReverseTopological | 02.1.DataStructures_hard/tasks/alphabet/alphabet.py:39-42 | reversing a finishing order, where each vertex follows its successors, gives a topological order |
| Alphabet.Expand | 02.1.DataStructures_hard/tasks/alphabet/alphabet.py:33-37 | finds an extracted successor or pushes exactly the new successors of the vertex |
| Alphabet.Visit | 02.1.DataStructures_hard/tasks/alphabet/alphabet.py:25-40 | one depth-first search from a new vertex either proves a cycle or finishes the vertex, keeps the status monotone and keeps the earlier list as a prefix and appends each newly finished vertex once, after its successors |
| Alphabet.ExtractAlphabet | 02.1.DataStructures_hard/tasks/alphabet/alphabet.py:10-44 | raises the cycle error iff the graph has a cycle; otherwise returns every vertex once, each before all of its successors |
| Alphabet.GetAlphabet | 02.1.DataStructures_hard/tasks/alphabet/alphabet.py:75-84 | the cycle error iff the words' graph has a cycle; otherwise every character of the words once, ordered consistently with each adjacent pair's first difference |
| BannerSearch.Normalize | 02.1.DataStructures_hard/tasks/banner_search_system/banner_search_system.py:14 | the result has no digit, punctuation or upper-case ASCII letter and is no longer than the text |
| BannerSearch.NormalizeChar | 02.1.DataStructures_hard/tasks/banner_search_system/banner_search_system.py:14 | definitional: a digit or punctuation character is deleted and any other character is lower-cased |
| BannerSearch.NormalizeAppend | 02.1.DataStructures_hard/tasks/banner_search_system/banner_search_system.py:14 | normalising works character by character, over concatenation |
| BannerSearch.NormalizeIdempotent | 02.1.DataStructures_hard/tasks/banner_search_system/banner_search_system.py:14 | normalising twice is normalising once |
| BannerSearch.LongWordsMember | 02.1.DataStructures_hard/tasks/banner_search_system/banner_search_system.py:25 | a word is kept iff it is a token longer than 3 characters |
| BannerSearch.BuildIndex | 02.1.DataStructures_hard/tasks/banner_search_system/banner_search_system.py:28-46 | every posting list is non-empty and strictly increasing, and banner i is listed under w iff w is one of its words |
| BannerSearch.AddBanner | 02.1.DataStructures_hard/tasks/banner_search_system/banner_search_system.py:39-44 | one banner's id is appended once to the list of each of its distinct words, and no other list changes |
| BannerSearch.QueryRefMeaning | 02.1.DataStructures_hard/tasks/banner_search_system/banner_search_system.py:59-98 | the reference query result is increasing and holds b iff there are query words and every one lists b |
| BannerSearch.Intersect | 02.1.DataStructures_hard/tasks/banner_search_system/banner_search_system.py:70-98 | the heap intersection returns, increasing, exactly the ids present in every posting list |
| BannerSearch.GetBannerIndicesByQuery | 02.1.DataStructures_hard/tasks/banner_search_system/banner_search_system.py:49-98 | the increasing list of ids listed under every qualifying query word; empty when there is no such word or one is absent from the index |
| BannerSearch.Pick | 02.1.DataStructures_hard/tasks/banner_search_system/banner_search_system.py:117 | the banners at the indices in order, Python negative indices included, or an IndexError when one is out of range |
| BannerSearch.GetBanners | 02.1.DataStructures_hard/tasks/banner_search_system/banner_search_system.py:104-117 | the banners whose ids the query returns, in that order |
| BannerSearch.QueryOnBuiltIndex | 02.1.DataStructures_hard/tasks/banner_search_system/banner_search_system.py:38-117 | on a built index the query never raises, and finds banner b iff b holds every qualifying query word |
| TraverseDictionary.FlattenIsLeaves | 02.1.DataStructures/tasks/traverse_dictionary/traverse_dictionary.py:14-22 | the pairs are the leaves in depth-first key order, each with its key path dot-joined onto the prefix |
| TraverseDictionary.DottedLead | 02.1.DataStructures/tasks/traverse_dictionary/traverse_dictionary.py:16 | from the empty prefix a path has no leading dot; otherwise the prefix is followed by a dot |
| TraverseDictionary.FlattenLength | 02.1.DataStructures/tasks/traverse_dictionary/traverse_dictionary.py:17-20 | one pair per non-mapping leaf; empty nested maps contribute nothing |
| TraverseDictionary.TraverseImmutable | 02.1.DataStructures/tasks/traverse_dictionary/traverse_dictionary.py:4-24 | returns the depth-first flattening, one pair per leaf |
| TraverseDictionary.TraverseMutable | 02.1.DataStructures/tasks/traverse_dictionary/traverse_dictionary.py:27-42 | appends the depth-first flattening to the result list and keeps what it held |
| TraverseDictionary.TraverseIterative | 02.1.DataStructures/tasks/traverse_dictionary/traverse_dictionary.py:46-65 | yields the same pairs as the recursive versions, as a multiset, one per leaf |
| ReverseDict.Revert | 02.1.DataStructures/tasks/reverse_dict/reverse_dict.py:15-28 | the keys are exactly the values of the input; k is in the list of v iff k maps to v; lists keep input order without repeats; their total length is the input's size |
| ReverseDict.KeysWithDistinct | 02.1.DataStructures/tasks/reverse_dict/reverse_dict.py:21-26 | each list has no repeats when the input keys are distinct |
| ReverseDict.TotalLength | 02.1.DataStructures/tasks/reverse_dict/reverse_dict.py:21-26 | the lists together hold one entry per input item |
| MergeK.PopKeepsHeap | 02.1.DataStructures/tasks/merge_lists_2/merge_lists.py:18-21 | after a pop and refill the heap still holds one entry, at its next unconsumed index, per input with elements left |
| MergeK.PopKeepsOrder | 02.1.DataStructures/tasks/merge_lists_2/merge_lists.py:18-21 | with sorted inputs the popped minimum is at least everything output before it |
| MergeK.InitialMatches | 02.1.DataStructures/tasks/merge_lists_2/merge_lists.py:12-14 | the initial heap holds the head of every non-empty input and nothing for empty ones |
| MergeK.MergeDone | 02.1.DataStructures/tasks/merge_lists_2/merge_lists.py:17-21 | after total-length rounds the output is a permutation of the concatenated inputs, and with sorted inputs their sorted concatenation |
| MergeK.Merge | 02.1.DataStructures/tasks/merge_lists_2/merge_lists.py:6-23 | the output has the total input length, is a permutation of the concatenated inputs, and for sorted inputs is sorted |
| MergeLists.MergePermutation | 01.2.BasicTypes/tasks/merge_lists/merge_lists.py:11-22 | the merge is a permutation of `lst_a + lst_b` |
| MergeLists.MergeSorted | 01.2.BasicTypes/tasks/merge_lists/merge_lists.py:11-22 | merging sorted inputs gives a sorted list |
| MergeLists.MergeIsSort | 01.2.BasicTypes/tasks/merge_lists/merge_lists.py:27-34 | on sorted inputs the two-index merge equals the sorted concatenation |
| MergeLists.MergeStep | 01.2.BasicTypes/tasks/merge_lists/merge_lists.py:12-16 | the smaller head is emitted next, and on equal heads the head of `lst_b` |
| MergeLists.MergeIterative | 01.2.BasicTypes/tasks/merge_lists/merge_lists.py:1-24 | the loop computes the two-index merge: a permutation of both inputs, and on sorted inputs the sorted concatenation |
| MergeLists.MergeSortedLists | 01.2.BasicTypes/tasks/merge_lists/merge_lists.py:27-34 | sorted, and a permutation of both inputs |
| FilterList.FilterIsWithout | 01.2.BasicTypes/tasks/filter_list_by_list/filter_list_by_list.py:12-22 | on sorted inputs the two-index filter is the subsequence of `lst_a` without every value of `lst_b`, duplicates included |
| FilterList.WithoutSorted | 01.2.BasicTypes/tasks/filter_list_by_list/filter_list_by_list.py:17-22 | a subsequence of a sorted list is sorted |
| FilterList.FilterListByList | 01.2.BasicTypes/tasks/filter_list_by_list/filter_list_by_list.py:1-24 | the loop computes the two-index filter; with sorted inputs the result is sorted and holds x iff x is in `lst_a` and not in `lst_b` |
| BinBasic.FindValue | 01.2.BasicTypes/tasks/bin_basic/bin_basic.py:20-38 | True only for a value in `nums`, and for ascending `nums` True iff the value is in it; an empty list gives False |
| BinTricky.GoodExists | 01.2.BasicTypes_hard/tasks/bin_tricky/bin_tricky.py:15-36 | some partition of the shorter array balances the two halves |
| BinTricky.Probe | 01.2.BasicTypes_hard/tasks/bin_tricky/bin_tricky.py:28-36 | a probe too far right lies above the good partition and one too far left lies below it, so the search keeps it in range |
| BinTricky.SearchPartition | 01.2.BasicTypes_hard/tasks/bin_tricky/bin_tricky.py:15-36 | with the shorter array first, the search returns the median of the merged order |
| BinTricky.MedianSymmetric | 01.2.BasicTypes_hard/tasks/bin_tricky/bin_tricky.py:12-13 | swapping the arrays does not change the median |
| BinTricky.FindMedian | 01.2.BasicTypes_hard/tasks/bin_tricky/bin_tricky.py:4-36 | the middle element of the merged order for an odd total, the mean of the two middle elements for an even total |
| CommonType.GetCommonType | 01.2.BasicTypes_hard/tasks/common_type/common_type.py:1-32 | never range, str with anything is str, and the listed types never reach object |
| CommonType.Symmetric | 01.2.BasicTypes_hard/tasks/common_type/common_type.py:9-32 | the result does not depend on argument order |
| CommonType.SameType | 01.2.BasicTypes_hard/tasks/common_type/common_type.py:9-10 | definitional: a type with itself is itself, except range gives tuple |
| CommonType.NumericIsLater | 01.2.BasicTypes_hard/tasks/common_type/common_type.py:15-19 | definitional: two numeric types give the later one in bool, int, float, complex |
| CommonType.ContainersJoin | 01.2.BasicTypes_hard/tasks/common_type/common_type.py:21-26 | definitional: two containers give list if either is a list, else tuple |
| CommonType.ContainerWithNumeric | 01.2.BasicTypes_hard/tasks/common_type/common_type.py:29-30 | definitional: a container with a numeric type gives str, in either order |
| MiddleValueOfTriple.GetMiddleValue | 01.2.BasicTypes/tasks/middle_value_of_triple/middle_value_of_triple.py:1-10 | one of the three arguments, and the middle one of the sorted triple |
| MiddleValueOfTriple.PermutationInvariant | 01.2.BasicTypes/tasks/middle_value_of_triple/middle_value_of_triple.py:5-10 | permuting the arguments does not change the result |
| MiddleValueOfTriple.AllEqual | 01.2.BasicTypes/tasks/middle_value_of_triple/middle_value_of_triple.py:5-6 | three equal arguments give that value |
| FizzBuzz.GetFizzBuzz | 01.2.BasicTypes/tasks/fizz_buzz/fizz_buzz.py:1-23 | as written: max(n, 0) items, the i-th being the number i+1 itself, strictly increasing |
| FizzBuzz.Spoken | 01.2.BasicTypes/tasks/fizz_buzz/fizz_buzz.py:2-6 | FizzBuzz iff divisible by 15, Buzz iff by 5 and not 3, Fizz iff by 3 and not 5, the number otherwise |
| FizzBuzz.FizzBuzzIntended | 01.2.BasicTypes/tasks/fizz_buzz/fizz_buzz.py:2-9 | max(n, 0) items, the i-th being what is said for i+1 |
| FizzBuzz.FizzBuzzDiffers | 01.2.BasicTypes/tasks/fizz_buzz/fizz_buzz.py:12-21 | the code's output agrees with the docstring exactly at numbers divisible by neither 3 nor 5; at 3 it gives 3 where "Fizz" is meant |
| NormalizePath.LeadingSlash | 03.1.FunctionsStringsIO/tasks/normalize_path/normalize_path.py:6-26 | the output is never empty and starts with '/' iff the input does |
| NormalizePath.NormalStackCanonical | 03.1.FunctionsStringsIO/tasks/normalize_path/normalize_path.py:11-21 | the final stack has no empty or '.' part, no '..' when absolute, and '..' only leading when relative |
| NormalizePath.RenderAbsRoundTrip | 03.1.FunctionsStringsIO/tasks/normalize_path/normalize_path.py:23-24 | normalising a rendered canonical absolute path gives back its parts |
| NormalizePath.RenderRelRoundTrip | 03.1.FunctionsStringsIO/tasks/normalize_path/normalize_path.py:25-26 | normalising a rendered canonical relative path gives back its parts |
| NormalizePath.Idempotent | 03.1.FunctionsStringsIO/tasks/normalize_path/normalize_path.py:1-26 | normalising twice is normalising once |
| NormalizePath.NormalizePathLoop | 03.1.FunctionsStringsIO/tasks/normalize_path/normalize_path.py:1-26 | the stack loop computes the normal form, which is non-empty and absolute iff the input is |
| CaesarCipher.EncryptChar | 03.1.FunctionsStringsIO/tasks/caesar_cipher/caesar_cipher.py:1-5 | non-letters unchanged, case preserved, a letter shifted by n mod 26 within its case |
| CaesarCipher.Encrypt | 03.1.FunctionsStringsIO/tasks/caesar_cipher/caesar_cipher.py:8-15 | same length, character by character |
| CaesarCipher.CharRoundTrip | 03.1.FunctionsStringsIO/tasks/caesar_cipher/caesar_cipher.py:5 | shifting a character by n and then -n restores it |
| CaesarCipher.RoundTrip | 03.1.FunctionsStringsIO/tasks/caesar_cipher/caesar_cipher.py:1-15 | encrypting with n and then -n returns the message |
| CaesarCipher.Periodic | 03.1.FunctionsStringsIO/tasks/caesar_cipher/caesar_cipher.py:5 | shifts n and n+26 agree |
| CountUtil.FlagCharsSelected | 03.1.FunctionsStringsIO/tasks/count_util/count_util.py:24 | a flag is selected iff it is a word character in a run following some '-' |
| CountUtil.DefaultFlags | 03.1.FunctionsStringsIO/tasks/count_util/count_util.py:23 | no flags and empty flags both act as "-mlLw", giving all four keys |
| CountUtil.NewlinesArePieces | 03.1.FunctionsStringsIO/tasks/count_util/count_util.py:28-29 | the number of '\n' is one less than the number of pieces between them |
| CountUtil.LongestLength | 03.1.FunctionsStringsIO/tasks/count_util/count_util.py:30-31 | the maximum is the length of one piece and at least that of every other |
| CountUtil.EmptyTextLongest | 03.1.FunctionsStringsIO/tasks/count_util/count_util.py:30-31 | empty text has longest line 0 |
| CountUtil.CountUtil | 03.1.FunctionsStringsIO/tasks/count_util/count_util.py:4-35 | exactly the keys of the selected flags; chars is the length, lines the newline count, longest_line the longest piece, words the number of non-whitespace runs |
| GitLog.FormatLine | 03.1.FunctionsStringsIO/tasks/git_log/git_log.py:14-22 | the first 7 characters of the first tab field, dots, then the last tab field cut to 73 characters, the dots filling to 73 |
| GitLog.FullShaWidth | 03.1.FunctionsStringsIO/tasks/git_log/git_log.py:16-22 | with a full sha the formatted line is 80 characters wide |
| GitLog.RStripNewline | 03.1.FunctionsStringsIO/tasks/git_log/git_log.py:14 | only trailing '\n' characters are removed |
| GitLog.WrittenAt | 03.1.FunctionsStringsIO/tasks/git_log/git_log.py:13-23 | output line i is input line i formatted, followed by a newline |
| GitLog.WrittenLength | 03.1.FunctionsStringsIO/tasks/git_log/git_log.py:13-23 | one output line per input line until the first line that raises, and all of them iff none raises |
| GitLog.ReformatGitLog | 03.1.FunctionsStringsIO/tasks/git_log/git_log.py:4-23 | writes the formatted lines in input order, stopping at the first that raises, and reports whether every line was written |
| MaxElement.Candidates | 03.2.NumpyAndPandas/tasks/max_element/max_element.py:15-17 | the candidates are exactly the elements whose predecessor is 0 |
| MaxElement.MaxElement | 03.2.NumpyAndPandas/tasks/max_element/max_element.py:5-22 | None iff no element follows a 0; otherwise a candidate at least every other candidate |
| NonzeroProduct.Diagonal | 03.2.NumpyAndPandas/tasks/nonzero_product/nonzero_product.py:12 | m[i][i] for i below the smaller dimension |
| NonzeroProduct.NonZero | 03.2.NumpyAndPandas/tasks/nonzero_product/nonzero_product.py:13 | the nonzero entries, and empty iff every entry is 0 |
| NonzeroProduct.NonzeroProduct | 03.2.NumpyAndPandas/tasks/nonzero_product/nonzero_product.py:5-17 | None iff every diagonal entry is 0; otherwise the product of the nonzero diagonal entries, which is never 0 |
| AddZeros.AddZeros | 03.2.NumpyAndPandas/tasks/add_zeros/add_zeros.py:5-12 | length 2n-1 (0 for empty), x[i] at position 2i, 0 at every odd position |
| AddZeros.EvensRecover | 03.2.NumpyAndPandas/tasks/add_zeros/add_zeros.py:12 | the even positions give back the input |

## Left out

- `dis.get_instructions` and the `getattr` name dispatch (vm.py:54-55) are replaced by an instruction datatype and a match. The commented-out handlers (vm.py:160-208) are not live code and are not modelled.
- Vm.Transition: `MAKE_FUNCTION` (vm.py:131-150) builds a host closure that runs a nested frame; it is not modelled, and the model treats it, like any other unknown opcode, as the AttributeError the name dispatch raises.
- Vm.CallEffect: the callable is applied through a total, deterministic `apply`, so a callee that itself raises at vm.py:75 is not modelled.
- Vm: Python's object model is reduced to a few value kinds (None, integers, strings, callables); constants of other types are not modelled.
- ArgBinding.BindArgs: requires `CodeOk` (the counts fit `co_varnames` and no parameter name repeats), which the interpreter guarantees of every code object. Keyword arguments are a map, so their call order is not modelled; no rule depends on it. The result is a map too, so the insertion order of the returned dict (positionals, then keyword-only names, then `*args` and `**kwargs`) is not modelled either.
- ArgBinding.BindArgs: the branches at arg_binding.py:71-72, 80-83 and 112-113 cannot take effect once the earlier rules have passed, and the model has no code for them. An assertion at each proves it: `extraPos == []` without `*args`, `!found` for the second positional-only scan, and that `*args` is already bound before the default of line 112.
- LifeGame: `_get_neighbours` (life_game.py:12-21) is never called and is not modelled.
- LifeGame.Game.NextGeneration: returns the game's own grid array, so a caller that writes to it changes the game, as with `self._map` at life_game.py:65; the source's list of row lists, whose rows could be rebound or resized, is a fixed-size two-dimensional array here.
- LifeGame.Game.constructor: requires non-empty, rectangular data. The source raises IndexError on `[]` (life_game.py:10) and accepts rows longer than the first; neither case is modelled.
- LruCache.Cache.func: total, deterministic, and takes the keyword arguments as a multiset, which assumes the function ignores keyword order; lru_cache.py:34 passes them in call order.
- LruCache.Cache.Call: models the corrected, hashable key (see Findings), and assumes every argument value is hashable. In the source a positional call such as `f([1, 2])` raises TypeError at lru_cache.py:30 before `func` runs; `PositionalCallRaises` states when that happens, and `Call` does not model it.
- Alphabet.ExtractAlphabet: requires `GraphOk` (each key once, every successor a key), which `build_graph` always produces. On a hand-built graph whose successor is not a key the source raises KeyError at alphabet.py:34; that path is not modelled. The order in which a successor set is iterated is left open, and the contract holds for every order.
- BannerSearch.Normalize: `LowerChar` (text.dfy:167) lower-cases ASCII letters only; `.lower()` at banner_search_system.py:14 also maps letters such as 'Ä' to 'ä'. The deleted set is ASCII digits and punctuation, as in the source.
- BannerSearch.GetBannerIndicesByQuery: requires `PostingsValid` (non-empty, strictly increasing lists), which `build_index` always produces. A hand-built index that repeats an id would count that banner twice (banner_search_system.py:83-90), and that case is not modelled.
- BannerSearch.GetBanners: requires `PostingsValid`, for the same reason.
- ReverseDict.Revert: returns a map, so the insertion order of the returned dict (each value at its first occurrence) is not modelled; each list's order is.
- MergeK.Merge and BannerSearch.Intersect: the `heapq` min-heap is a sequence from which the least entry is removed; the heap's internal layout is not modelled.
- BinTricky.FindMedian: returns an exact real, not a float. The -inf/+inf sentinels are the absent bounds of a `Bound` datatype. It requires sorted inputs, as the source's problem statement does.
- CaesarCipher.EncryptChar: ASCII letters only. caesar_cipher.py:2-5 shifts any character for which `isalpha` holds, so 'é' with shift 0 gives 'g'. `RoundTrip` holds for the model only.
- CountUtil.WordChar (count_util.dfy:10): ASCII letters, digits and '_' only. The regex `\w` in count_util.py:24 is Unicode-aware, so with flags "-éw" the source also reports "words".
- NonzeroProduct.NonzeroProduct and NonzeroProduct.Product: unbounded integers. NumPy's `np.prod` (nonzero_product.py:17) wraps at 64 bits, so for the diagonal [2^32, 2^32] the source returns 0, while the model proves the result is never 0.
- MaxElement, NonzeroProduct, AddZeros: NumPy arrays are sequences of unbounded integers; dtypes and broadcasting are not modelled.
- GitLog.ReformatGitLog: the input and output streams are sequences of lines. A line without a tab makes the unpacking at git_log.py:15 raise ValueError; the model stops there, returns the lines written so far and reports `ok == false` instead of raising.
- Not part of this model: the other files of the repository (the stream merge, `tail`, the calculator REPL, the profiler and timers, the context manager, the floating-point NumPy tasks, `common_type_2` and the test files), which are I/O, timing, floating point or dynamic conversion.

## Findings

| source | as written | input that shows it | evidently intended | confidence | as-written member | corrected member |
|---|---|---|---|---|---|---|
| 04.1.NamespacesAndDecorators/tasks/lru_cache/lru_cache.py:18-32 | `_make_key` returns `(args, sorted(...))`, a tuple holding a list, which is unhashable, so `key in cached_results_dict` raises TypeError for every call with keyword arguments | `f(1, x=2)` on a fresh cache | a hashable key, such as a tuple of the sorted items, so keyword calls are cached and keyword order does not matter | not executed | LruCache.KeywordCallRaises | LruCache.Cache.Call |
| 01.2.BasicTypes/tasks/fizz_buzz/fizz_buzz.py:12-21 | every branch appends `num` itself, so no "Fizz", "Buzz" or "FizzBuzz" is ever produced | `get_fizz_buzz(3)` gives `[1, 2, 3]` | `[1, 2, "Fizz"]`, as the docstring at lines 2-6 says | not executed | FizzBuzz.FizzBuzzDiffers | FizzBuzz.FizzBuzzIntended |
