# simpler, modelled in Dafny

This project models the self-contained, deterministic core of the Python
utility library *simpler* and proves properties of it.

- **Best-first search engine** (`DynamicProgramming.solve`) and `deep_merge`
  (module `Algorithms`, `algorithms.dfy`).
  - The three callbacks (`alternatives`, `is_final`, `penalty`) are fields of
    a datatype.
  - The search loop is a method with a fuel bound. It is proved equal to a
    functional specification.
  - The specification's invariants are proved as lemmas: the frontier stays
    sorted, popped states are minimal, and explored states are never queued
    again. Every result mode is characterised against the order in which the
    search generates alternatives.
- **Integer and sequence arithmetic** from `simpler/math.py` (module `Math`,
  `math.dfy`):
  - `gcd` and its partner `lcm`, `base_change`, fast-doubling `fibonacci`;
  - wheel-factorisation `factor` and the odd-only sieve `prime_list`;
  - `is_prime`: as written and corrected;
  - `unique`, `all_equal`, `clamp`, `palindrome_list` and `phi`.
- **Nucleotide string transforms and the FASTA parser** (module
  `Bioinformatics`, `bioinformatics.dfy`).
- **Bookkeeping parts of `simpler/files.py`** (module `Files`, `files.dfy`):
  - `detect_format` over the extension table;
  - the unbounded memo and the LRU `mem_cache` wrappers, as classes whose
    methods update the dictionary and the usage list;
  - the signature search of `find_hidden_compressed`.
- **String builders of `simpler/connectors.py`:**
  - `Excel.index_from_code` and `Excel.block_from_code` (module `Excel`,
    `excel.dfy`);
  - the query and parameter construction of `SQL.select`, `update`,
    `delete` and `insert_all`, and the truncation in `print_query` (module
    `Sql`, `sql.dfy`).
- **Field validators** `assert_set`, `assert_str` and `assert_mail` (module
  `Validation`, `validation.dfy`).
- **`safe_filename`** (module `Format`, `format.dfy`).

## Shared modules

- `Wrappers` (`wrappers.dfy`) holds `Option` and `Result`. A Python function
  that may return `None` is modelled with an `Option`. One that raises is
  modelled with a `Result` whose error names the failure.
- `Strings` (`strings.dfy`) holds ASCII character classes, `lower`, `strip`,
  `join`, `split`, `startswith`, `endswith` and `count`.
- `Builtins` (`builtins.dfy`) holds reversal, `range`, flat maps,
  repetition and flattening.

## Taken as parameters

The source's callbacks and external values enter the model as parameters:
- the search engine's `alternatives`, `is_final` and `penalty`;
- the `key` function of `unique`;
- the cached method and key function of `mem_cache`;
- the bytes read by `find_hidden_compressed`;
- `max_insertions` and the database engine of `insert_all`.

## Model

| member | source | states |
|---|---|---|
| Algorithms.Solve | simpler/algorithms.py:22-50 | A search type outside 0..3 gives `InvalidSearchType` before anything is explored. Otherwise the result is the specification `SolveSpec`: explore from the initial state, then conclude according to the mode. |
| Algorithms.SolveSpec | simpler/algorithms.py:22-50 | Defines what `solve` computes: the main loop from the initial state, then the post-processing. |
| Algorithms.Expand | simpler/algorithms.py:30-40 | Defines the pass over one state's alternatives: skip, return early, record or queue. |
| Algorithms.Explore | simpler/algorithms.py:28-40 | Defines the main loop: pop the head, mark it explored, expand it, within a fuel bound. |
| Algorithms.Conclude | simpler/algorithms.py:41-50 | Defines the post-processing: `None`, all recorded states, the optimal ones, or the first optimal one. |
| Algorithms.CountBelow | simpler/algorithms.py:39 | The insertion index is at most the frontier's length. |
| Algorithms.SortedCountBelow | simpler/algorithms.py:39-40 | On a sorted frontier, the entries before the insertion index have a strictly smaller penalty and those after it do not. |
| Algorithms.InsertPlacement | simpler/algorithms.py:39-40 | Inserting keeps the frontier sorted. The new entry precedes every entry with an equal penalty, and all other entries keep their relative order. |
| Algorithms.InsertMembers | simpler/algorithms.py:40 | The frontier after insertion holds exactly the old entries plus the new one. |
| Algorithms.InitialConsistent | simpler/algorithms.py:24-27 | The search's starting point (the initial state alone in the frontier, nothing explored or recorded) satisfies the loop invariant. The frontier is sorted and carries each state's penalty. Recorded finals are final and never the initial state. |
| Algorithms.PopStep | simpler/algorithms.py:28-29 | Under the invariant, the popped head has minimal penalty in the frontier and is added to `explored`. |
| Algorithms.ExpandEffect | simpler/algorithms.py:30-40 | Expanding one state preserves the invariant. Already explored alternatives are neither queued nor recorded. Finals are recorded or returned and never queued. An early return is an unexplored final alternative, in `ONE_SOLUTION`, or with penalty 0 in `ONE_OPTIMAL_SOLUTION`, and never the initial state. |
| Algorithms.ExpandAlternatives | simpler/algorithms.py:30-40 | The loop over one state's alternatives computes the specification `Expand`. A pass that does not return early leaves the explored set as it was. |
| Algorithms.ExploreEffect | simpler/algorithms.py:28-40 | Running the loop from a state satisfying the invariant keeps the recorded finals. What it records or returns is final, carries its own penalty and is never the initial state, so the initial state is never a solution. `ONE_SOLUTION` records nothing. |
| Algorithms.ExpandModes | simpler/algorithms.py:33-37 | `ALL_SOLUTIONS` and `ALL_OPTIMAL_SOLUTIONS` expand identically and never return early. `ONE_OPTIMAL_SOLUTION` either returns early or expands like them. |
| Algorithms.ExploreModes | simpler/algorithms.py:28-40 | The two "all" modes explore identically and never return early. `ONE_OPTIMAL_SOLUTION` either returns early or explores like them. |
| Algorithms.Trace | simpler/algorithms.py:28-32 | Defines the alternatives the exhaustive search generates and does not skip, in the order the two loops meet them, repeats included. |
| Algorithms.FirstStop | simpler/algorithms.py:33-35 | Defines the first state of a list that meets the early-return condition of a mode. |
| Algorithms.FirstStopIndex | simpler/algorithms.py:33-35 | `FirstStop` is the state of least index meeting the early-return condition, and it is `None` exactly when no state meets it. |
| Algorithms.ExpandRecords | simpler/algorithms.py:30-37 | Without an early return, one pass appends to the recorded finals exactly the unexplored final alternatives, with their penalties, in the order generated and with repeats. The explored set does not change. |
| Algorithms.ExpandQueues | simpler/algorithms.py:30-40 | Without an early return, one pass adds to the frontier exactly the unexplored non-final alternatives, with their penalties, as a multiset. |
| Algorithms.ExpandStops | simpler/algorithms.py:30-37 | In any mode, one pass returns early with the first unexplored alternative meeting the early-return condition. When there is none, it does exactly what `ALL_SOLUTIONS` does. |
| Algorithms.ExploreStops | simpler/algorithms.py:28-40 | The main loop in any mode returns the first generated alternative (in `Trace` order) meeting the early-return condition. When there is none, it runs exactly as `ALL_SOLUTIONS` does. |
| Algorithms.ExploreRecords | simpler/algorithms.py:28-40 | An exhaustive run ends with the recorded finals extended by every final alternative of `Trace`, in order, repeats included. |
| Algorithms.OneSolutionAnswer | simpler/algorithms.py:33-41 | `ONE_SOLUTION` answers with the first final alternative generated (the first final state of `Trace`), which is never the initial state. When no final state is generated, it answers `None` or runs out of fuel. |
| Algorithms.AllSolutionsAnswer | simpler/algorithms.py:37-43 | `ALL_SOLUTIONS` answers with every final alternative generated, in discovery order and with repeats (the final states of `Trace`), none of them the initial state. It answers `None` when there is none, or runs out of fuel. |
| Algorithms.MinPenalty | simpler/algorithms.py:45-46 | The minimum is attained by some final and is at most every final's penalty. |
| Algorithms.Optimals | simpler/algorithms.py:46-47 | Filtering by an attained penalty gives a non-empty list. |
| Algorithms.OptimalsOfConsistent | simpler/algorithms.py:46-47 | The optimal finals are exactly the recorded states whose penalty is the minimum, in order. |
| Algorithms.CheapestOfAll | simpler/algorithms.py:45-47 | Over finals recorded with their own penalties, the optimal states are those whose penalty is the least of all the recorded states. There is at least one. |
| Algorithms.AllOptimalIsCheapestOfAll | simpler/algorithms.py:44-50 | `ALL_OPTIMAL_SOLUTIONS` answers, in order, exactly those states of the `ALL_SOLUTIONS` answer whose penalty is the least among them. That list is never empty. Otherwise both modes give `None`, or both run out of fuel. |
| Algorithms.OneOptimalAnswer | simpler/algorithms.py:34-50 | `ONE_OPTIMAL_SOLUTION` returns early with the first final alternative of penalty 0 generated. When there is none, it gives the first element of the `ALL_OPTIMAL_SOLUTIONS` answer, and when that answer is `None` or out of fuel, so is this one. |
| Algorithms.PathFirstPop | simpler/algorithms.py:28-40 | In a small shortest-path problem, the first pop yields the initial state's alternatives in frontier order. |
| Algorithms.PathExhaustive | simpler/algorithms.py:28-41 | In that problem, exhaustive exploration records both final states in discovery order. |
| Algorithms.ShortestPathScenario | simpler/algorithms.py:22-50 | Gives the four modes' answers on that problem. |
| Algorithms.DeepMerge | simpler/algorithms.py:52-61 | The loop over `dict2` produces the reference merge. Its keys are both inputs' keys. A value from `dict2` overrides, except that two dictionaries merge recursively. The inputs are values and are not modified. |
| Algorithms.MergeKeepsSecond | simpler/algorithms.py:56-61 | A leaf reachable in `dict2` is found at the same path in the merge. |
| Algorithms.MergeKeepsFirst | simpler/algorithms.py:54-61 | A value at a path that `dict2` does not override (no leaf on the way) is kept from `dict1`. |
| Algorithms.MergeIdempotent | simpler/algorithms.py:52-61 | Merging a dictionary with itself gives it back. |
| Algorithms.ShallowMerge | simpler/algorithms.py:56-61 | When no key holds a dictionary on both sides, the merge is plain map override. |
| Algorithms.Merged | simpler/algorithms.py:52-61 | Defines the reference merge: both inputs' keys, `dict2` overriding, and nested dictionaries merged recursively. |
| Math.Clamp | simpler/math.py:1-4 | The result is at least `minimum`, and at most `maximum` when the bounds are ordered. A value inside the bounds is returned. Below them, or with inverted bounds, the result is `minimum`; above them it is `maximum`. |
| Math.GcdOf | simpler/math.py:98-108 | Divides both inputs. Every common divisor divides it. It is 0 only for (0, 0). |
| Math.GcdZero | simpler/math.py:104-105 | `gcd(0, b)` is `b` for `b >= 0`. |
| Math.GcdOfSigned | simpler/math.py:98-108 | After taking absolute values, the gcd divides both signed inputs and every common divisor divides it. It is `abs(b)` when `a` is 0, and 0 only for (0, 0). |
| Math.Gcd | simpler/math.py:98-108 | The loop's result is non-negative and divides both `a` and `b`. Every common divisor divides it. `gcd(0, b) = abs(b)`. |
| Math.Lcm | simpler/math.py:94-96 | Fails (division by zero) exactly when both inputs are 0. |
| Math.LcmProperties | simpler/math.py:94-96 | For non-zero inputs, `lcm(a, b) * gcd(a, b) == a * b`, and both inputs divide the result. |
| Math.BaseChange | simpler/math.py:38-47 | The digits have the same value in `base_to` as the input in `base_from`. They are all in `[0, base_to)` with no leading zero. The list is empty exactly for value 0. |
| Math.CanonicalUnique | simpler/math.py:38-47 | Two canonical digit lists with the same value are equal, so the output is determined. |
| Math.BaseChangeDocExample | simpler/math.py:39-40 | `base_change([1,1,0,1], 2, 10) = [1, 3]`. |
| Math.FibSum | simpler/math.py:84-91 | The addition law F(m+n+1) = F(m+1)F(n+1) + F(m)F(n), from which the doubling identities follow. |
| Math.DoublingStep | simpler/math.py:85-91 | From the pair at `n // 2`, `(c, d)` for even `n` and `(d, c + d)` for odd `n` are the pair at `n`. |
| Math.FibDoubling | simpler/math.py:84-90 | The doubling identities used by `_fib` hold for the Fibonacci recurrence. |
| Math.FastFib | simpler/math.py:81-91 | `_fib(n)` returns `(F(n), F(n+1))`. |
| Math.Fibonacci | simpler/math.py:79-92 | `fibonacci(n) = F(n)`, with F(0)=0, F(1)=1 and F(n+2)=F(n+1)+F(n). |
| Math.Unique | simpler/math.py:11-22 | The loop keeps, in input order, exactly the elements whose key has not occurred earlier. |
| Math.FirstsKeys | simpler/math.py:11-22 | Every kept key comes from the input, and every input key is kept. |
| Math.UniqueKeys | simpler/math.py:11-22 | The kept elements have pairwise distinct keys. |
| Math.UniqueSubsequence | simpler/math.py:11-22 | The kept elements come from the input, and there are no more of them than input elements. |
| Math.UniqueDocExample | simpler/math.py:12-14 | `[1, 5, 7, 9]` with key `x % 3` gives `[1, 5, 9]`. |
| Math.AllEqual | simpler/math.py:24-26 | True exactly when all elements are pairwise equal. |
| Math.InitialVerdictSound | simpler/math.py:60-69 | The verdict before the trial loop is correct. False means composite. True is final below 25. A candidate after trial division by 2 and 3 is odd and not a multiple of 3. |
| Math.IsPrimeAsWritten | simpler/math.py:58-77 | As written, with the exact integer square root for `int(sqrt(n))`: whenever the fuel-bounded run returns, its answer is the primality of `n`. A negative `n` fails (square root of a negative). Any other failure is running out of fuel. |
| Math.IsPrimeRunSound | simpler/math.py:58-77 | As written, with the exact integer square root, a returned answer is the primality of `n`. The run fails only for negative `n` or when the fuel runs out. |
| Math.TrialLoopSound | simpler/math.py:70-77 | From any state meeting the loop invariant, the as-written loop answers with the primality of `n` or runs out of fuel. |
| Math.TrialStep | simpler/math.py:72-76 | One pass keeps the invariant. A candidate pair dividing `n` means `n` is not prime. Otherwise no divisor lies below the next candidate. |
| Math.TrialVerdict | simpler/math.py:72-77 | When the loop stops, `res` is exactly the primality of `n`. |
| Math.TrialLoopStuck | simpler/math.py:71-76 | Once a divisor `f` is found, `f` is never advanced and the loop never ends. |
| Math.IsPrimeAsWrittenHangs | simpler/math.py:71-76 | `is_prime(25)` and `is_prime(35)` do not return, whatever the fuel. |
| Math.IsPrime | simpler/math.py:58-77 | Corrected loop (leaves it at the first divisor), with the exact integer square root: fails for negative `n`, and otherwise returns the primality of `n`. |
| Math.DivideOut | simpler/math.py:119-122 | Dividing out a factor `f` gives an exponent of at least 1. The rest is no longer divisible by `f`, and `f^e * rest` is the input. |
| Math.Factor | simpler/math.py:110-129 | `[]` for `n < 1`. Otherwise the bases are strictly increasing primes with exponents at least 1, and the product of the `p^e` is `n`. |
| Math.Round | simpler/math.py:115-130 | One pass over the gaps ends with the factorisation, or leaves the invariant for the next candidate, which is 11 modulo 30. |
| Math.Candidate | simpler/math.py:117-129 | One candidate either completes the factorisation (`f * f > n`), divides `f` out, or passes it, and the invariant holds afterwards. |
| Math.MarkMultiples | simpler/math.py:54 | The slice assignment clears exactly the sieve cells of odd multiples from `i*i` upward. Every other cell is unchanged. |
| Math.CollectPrimes | simpler/math.py:55-56 | Collecting the surviving cells gives an increasing list of exactly the primes below `n`. |
| Math.PrimeList | simpler/math.py:49-56 | Fails for `n < 0`. For `n` in 0..2 the result is `[2]`. For `n >= 3` it is a strictly increasing list of exactly the primes below `n`. |
| Math.PalindromeListError | simpler/math.py:131-147 | No list (the `product` call raises) exactly when `k <= 0`. |
| Math.PalindromeList | simpler/math.py:131-147 | Defines `palindrome_list(k)`: the nine one-digit numbers for `k = 1`, otherwise one sum of digit powers per first digit, middle digits and centre digit, in `product` order, and `None` for `k <= 0`. |
| Math.PalindromeListLength | simpler/math.py:131-147 | There are `9 * 10^((k-1)//2)` palindromes of length `k`. |
| Math.PalindromeListSound | simpler/math.py:131-147 | Every listed number has `k` digits with no leading zero and reads the same from both ends. |
| Math.PalindromeListComplete | simpler/math.py:131-147 | Every `k`-digit palindrome is listed. |
| Math.Phi | simpler/math.py:149-162 | The inclusion-exclusion loop over the prime factors gives `n * prod(1 - 1/p)` for a factorisation of `n`. It returns `n` unchanged for `n < 1`. |
| Math.AddCombinations | simpler/math.py:158-161 | The inner loop adds `n // val` with the sign of the combination size, over all combinations of `fs` prime factors. |
| Math.Combinations | simpler/math.py:158 | Defines `itertools.combinations(factors, fs)`: the sub-lists of `fs` elements in lexicographic position order. |
| Math.PhiClosedForm | simpler/math.py:155-162 | The inclusion-exclusion sum over subsets of the prime factors equals Euler's product formula. |
| Bioinformatics.DnaToRna | simpler/bioinformatics.py:20-22 | Preserves length, maps every 'T' to 'U' and leaves other characters unchanged. |
| Bioinformatics.RnaToDna | simpler/bioinformatics.py:24-26 | Preserves length, maps every 'U' to 'T' and leaves other characters unchanged. |
| Bioinformatics.DnaRoundTrip | simpler/bioinformatics.py:20-26 | `rna_to_dna(dna_to_rna(s)) == s` when `s` has no 'U'. |
| Bioinformatics.RnaRoundTrip | simpler/bioinformatics.py:20-26 | `dna_to_rna(rna_to_dna(s)) == s` when `s` has no 'T'. |
| Bioinformatics.ComplementInvolution | simpler/bioinformatics.py:35-37 | Complementing a character twice gives it back, for both translation tables. |
| Bioinformatics.ReverseComplementAt | simpler/bioinformatics.py:32-37 | Preserves length. Position `i` is the complement of input position `len-1-i`: G/C and A/U for RNA, G/C and A/T for DNA, other characters copied. |
| Bioinformatics.ReverseComplement | simpler/bioinformatics.py:32-37 | Defines `reverse_complement`: the `maketrans` table for RNA or DNA applied to each character, then the string reversed. |
| Bioinformatics.ReverseComplementInvolution | simpler/bioinformatics.py:35-37 | Applying `reverse_complement` twice with the same `is_rna` returns the input. |
| Bioinformatics.Codons | simpler/bioinformatics.py:30 | The codons are the `len // 3` consecutive three-character slices; 1 or 2 trailing nucleotides are ignored. |
| Bioinformatics.Translation | simpler/bioinformatics.py:30 | Each codon maps to its `codon_table` entry. A failure names a codon missing from the table. |
| Bioinformatics.TranslationFails | simpler/bioinformatics.py:30 | Translation fails (KeyError) exactly when some complete codon is not a table key. |
| Bioinformatics.CodonTableComplete | simpler/bioinformatics.py:1 | The table holds every three-letter word over A, C, G, U, and nothing else. |
| Bioinformatics.SerineStripped | simpler/bioinformatics.py:30 | `strip('Stop')` removes every leading or trailing 'S', so "UCU" (serine) translates to "" as written. The corrected translation gives "S". |
| Bioinformatics.RnaToProteinAsWritten | simpler/bioinformatics.py:30 | Defines `rna_to_protein` as written: the joined amino letters with any of 'S', 't', 'o', 'p' stripped from both ends, or KeyError. |
| Bioinformatics.RnaToProteinKeeps | simpler/bioinformatics.py:30 | Corrected: the result is the joined amino acids with only whole leading and trailing stop codons removed. |
| Bioinformatics.RnaToProtein | simpler/bioinformatics.py:28-30 | Defines the corrected `rna_to_protein`: the translation with only whole leading and trailing 'Stop' markers removed, or KeyError. |
| Bioinformatics.RnaToProteinIgnoresTail | simpler/bioinformatics.py:30 | Appending 1 or 2 nucleotides does not change the result, as written or corrected. |
| Bioinformatics.ParseFasta | simpler/bioinformatics.py:5-18 | The loop over the lines computes the specification `ParseFastaSpec`. |
| Bioinformatics.ParseFastaSpec | simpler/bioinformatics.py:5-18 | Defines `parse_fasta`: the reader over the lines split at newlines, then either the ordered records or, with `first`, the first record's sequence. |
| Bioinformatics.ReadLines | simpler/bioinformatics.py:8-15 | The loop over the lines computes the reader specification `Read`. |
| Bioinformatics.Read | simpler/bioinformatics.py:8-15 | Defines the reader over the lines: a header starts or restarts a record, and any other line is appended stripped to the current one. A line before any header is a KeyError. |
| Bioinformatics.EarlyKeyError | simpler/bioinformatics.py:14-15 | A sequence line read before any header makes the whole read fail with KeyError. |
| Bioinformatics.ReadFails | simpler/bioinformatics.py:10-15 | Reading fails (a line before any header) exactly when the first line does not start with '>'. |
| Bioinformatics.ReadOrdered | simpler/bioinformatics.py:8-15 | The record names are distinct and keyed in first-appearance order. |
| Bioinformatics.ReadNames | simpler/bioinformatics.py:11-13 | The first record is named by the stripped text after the first header's '>'. |
| Bioinformatics.ReadRecord | simpler/bioinformatics.py:11-15 | A header followed by non-header lines stores the concatenation of the stripped lines under that header's name. |
| Bioinformatics.ParseFastaFails | simpler/bioinformatics.py:5-18 | `parse_fasta` fails exactly when the text does not begin with a header. |
| Bioinformatics.ParseFastaFirst | simpler/bioinformatics.py:16-18 | With `first=True` the result is the sequence of the first record. |
| Files.FirstRow | simpler/files.py:131-155 | The first table row at or after `from` having an extension `e` with the name ending in '.' + `e`. No earlier row matches. `None` if no row matches. |
| Files.DetectFormat | simpler/files.py:148-163 | `auto` gives the first matching row's format for the lower-cased path, or `default`. Any other format is returned unchanged. With `accept` given, a result not in it fails. |
| Files.AutoDetect | simpler/files.py:151-157 | The loop over the table gives `Detected`: the first matching row's format, or `default`. |
| Files.FirstRowAt | simpler/files.py:152-155 | A matching row after rows that do not match is the first row, where the loop breaks. |
| Files.Detected | simpler/files.py:150-157 | A result other than `default` is the format of the first row matching the lower-cased path. |
| Files.DetectedIgnoresCase | simpler/files.py:151 | Paths that lower-case alike get the same format. |
| Files.TarBeforeGzip | simpler/files.py:131-155 | 'X.TAR.GZ' is detected as 'tar', because the tar row precedes the gzip row. |
| Files.MemCache.constructor | simpler/files.py:229-230 | The cache starts empty and valid. |
| Files.MemCache.Call | simpler/files.py:235-241 | A hit returns the stored value without invoking the method. A miss invokes it once and stores the result. Every entry is the method's result for arguments with that key. |
| Files.RemoveDistinct | simpler/files.py:247 | `list.remove` of a distinct list keeps it distinct and drops exactly that element. |
| Files.DistinctCardinality | simpler/files.py:243-256 | A duplicate-free list has as many elements as its set. |
| Files.BoundedSize | simpler/files.py:243-256 | Under the LRU invariant, the dictionary has as many entries as the usage list and no more than `maxsize`. |
| Files.Touch | simpler/files.py:246-255 | A hit that moves its key to the front keeps the invariant. |
| Files.Store | simpler/files.py:249-255 | A miss with room, stored at the front, keeps the invariant. |
| Files.StoreEvicting | simpler/files.py:248-255 | A miss on a full cache evicts the last key of the usage list and keeps the invariant. |
| Files.LruCache.Size | simpler/files.py:243-256 | The dictionary holds as many entries as the usage list, at most `maxsize`. |
| Files.LruCache.constructor | simpler/files.py:229-230 | The bounded cache starts empty and valid for `maxsize >= 1`. |
| Files.LruCache.Call | simpler/files.py:242-256 | Keeps the invariant: the keys are the usage list's elements, with no duplicates and at most `maxsize` of them. The called key goes to the front and the others keep their order. A hit returns the stored value. A miss computes and stores it, evicting the previous last key when the cache overflows. |
| Files.Find | simpler/files.py:312 | `bytes.find`: -1 exactly when the signature does not occur; otherwise its first occurrence. |
| Files.HiddenCompressed | simpler/files.py:281-313 | The names whose signature bytes occur somewhere in the data read, exactly. |
| Files.ZipFound | simpler/files.py:281-313 | Data starting with a ZIP local header is reported as containing 'zip'. |
| Excel.LetterIndex | simpler/connectors.py:442 | `_LETTERS.index(c)` is defined exactly for an upper-case letter and gives its position. |
| Excel.IndexFromCode | simpler/connectors.py:438-443 | The loop computes the bijective base-26 value `Index(code)`. Any character other than an upper-case letter fails. |
| Excel.Index | simpler/connectors.py:438-443 | Succeeds exactly when every character is an upper-case letter. |
| Excel.Prefix | simpler/connectors.py:441-442 | A failing prefix makes the whole code fail. |
| Excel.IndexOfCode | simpler/connectors.py:438-443 | Every natural is the index of its column code. |
| Excel.CodeOfIndex | simpler/connectors.py:438-443 | Every upper-case code is the column code of its index, so the encoding is a bijection. |
| Excel.IndexExamples | simpler/connectors.py:438-443 | 'A' is 1, 'Z' is 26, 'AA' is 27 and 'ABC' is 731. |
| Excel.MatchRangeFails | simpler/connectors.py:447-448 | The range pattern fails to match exactly when the code does not start with letters followed by digits. |
| Excel.MatchRange | simpler/connectors.py:447 | Defines `re.match` of the range pattern: column letters and row digits, optionally followed by ':' with a second pair. |
| Excel.BlockExample | simpler/connectors.py:445-454 | `block_from_code('A4:B5') == (3, 0, 5, 2)`. |
| Excel.BlockFromCode | simpler/connectors.py:445-454 | Defines `block_from_code`: the match groups converted to a zero-based start row and column and an exclusive end, with the error of each failing step. |
| Excel.DecimalOfDigits | simpler/connectors.py:450-452 | `int(str(n)) == n` on decimal digit strings. |
| Excel.MatchParts | simpler/connectors.py:404 | The pattern matches `col row : col row` at the start of the code, with any tail that does not continue the last row number. |
| Excel.BlockRoundTrip | simpler/connectors.py:445-454 | For any columns `c1, c2 >= 1` and rows `r1, r2`, the code built from them gives `(r1 - 1, c1 - 1, r2, c2)`: a zero-based inclusive start and an exclusive end. |
| Excel.BlockWithoutEnd | simpler/connectors.py:445-454 | 'A4' matches without an end part, and `int(None)` then fails. |
| Excel.BlockLowerCase | simpler/connectors.py:445-454 | 'a4:b5' matches (the pattern ignores case) but the lower-case column fails in `index_from_code`. |
| Sql.Select | simpler/connectors.py:175-179 | The query starts with 'SELECT * FROM t ' and is exactly that for no filters. The parameters are the filter values in column order. |
| Sql.TermsPlaceholders | simpler/connectors.py:317-327 | Joining the `c=%s` terms gives one placeholder per column. |
| Sql.SelectPlaceholders | simpler/connectors.py:175-179 | The select query has as many '%s' placeholders as parameters. |
| Sql.AppendTerms | simpler/connectors.py:317-326 | The loop emits a `k=%s ` term per column and appends the values to the parameters in dict order. |
| Sql.Update | simpler/connectors.py:313-327 | The loops build the update query of `UpdateQuery`. |
| Sql.UpdateQuery | simpler/connectors.py:313-327 | Defines the update query: the SET terms, then the WHERE terms, and the parameters in that order. |
| Sql.Delete | simpler/connectors.py:334-341 | The loop builds the delete query of `DeleteQuery`. |
| Sql.DeleteQuery | simpler/connectors.py:334-341 | Defines the delete query: the WHERE terms, and the filter values as parameters. |
| Sql.ClausePlaceholders | simpler/connectors.py:316-327 | A SET or WHERE clause has one placeholder per column. |
| Sql.ClausePresent | simpler/connectors.py:316-327 | A SET or WHERE clause is present exactly when its dict is non-empty, and then starts with its keyword. |
| Sql.UpdateParams | simpler/connectors.py:313-327 | The parameters are the update values followed by the filter values. The query has as many placeholders as parameters. |
| Sql.DeleteParams | simpler/connectors.py:334-341 | The parameters are the filter values. The query has as many placeholders as parameters. |
| Sql.ChunkedRows | simpler/connectors.py:256-259 | With `max_insertions = m`, the chunks concatenate to the rows. Every chunk but the last has exactly `m` rows and the last has 1..m. No limit gives one chunk. No rows give no chunks. |
| Sql.SplitRows | simpler/connectors.py:256-259 | The re-slicing loop produces the chunks of `Chunked`. |
| Sql.Chunked | simpler/connectors.py:256-259 | Defines the chunks `insert_all` sends: slices of `max_insertions` rows while more rows remain, then the rest. |
| Sql.PlaceholdersCount | simpler/connectors.py:279 | `','.join(['%s'] * n)` holds `n` placeholders. |
| Sql.GroupsCount | simpler/connectors.py:270 | `n` placeholders repeated in `rows` groups give `n * rows` of them. |
| Sql.TuplePlaceholders | simpler/connectors.py:268-272 | Non-postgre tuple rows of equal arity: the query has as many placeholders as parameters. |
| Sql.Lookup | simpler/connectors.py:281-289 | `row[key]` is missing exactly when the key is not a column of the row. |
| Sql.RowValuesOk | simpler/connectors.py:281-289 | A row's values for the keys exist exactly when the row has every key, and are the values at those keys. |
| Sql.RowsValuesOk | simpler/connectors.py:281-289 | All rows' values exist exactly when each row's do. |
| Sql.DictStatementFails | simpler/connectors.py:274-289 | A dict chunk fails with KeyError exactly when some row lacks a key of the first row. |
| Sql.DictHeadCount | simpler/connectors.py:284-286 | The INSERT header with plain column names holds no placeholder. |
| Sql.DictPlaceholders | simpler/connectors.py:283-289 | Non-postgre dict rows: there are `rows * keys` parameters and as many placeholders. |
| Sql.AllOk | simpler/connectors.py:257-289 | A list of chunk statements succeeds exactly when every chunk does, keeping their order. |
| Sql.NonEmptyChunks | simpler/connectors.py:256-259 | No chunk is empty, so `rows[0]` is defined in every chunk. |
| Sql.TupleStatements | simpler/connectors.py:260-272 | One tuple statement per chunk, in order. |
| Sql.DictStatements | simpler/connectors.py:273-289 | The dict statements of all chunks, or KeyError from the first failing chunk. |
| Sql.InsertAll | simpler/connectors.py:252-302 | The statements are `InsertAllSpec`: nothing for no rows, otherwise one statement per chunk. |
| Sql.InsertAllSpec | simpler/connectors.py:252-302 | Defines the statements `insert_all` executes: nothing for no rows, otherwise one statement per chunk, the first KeyError winning. |
| Sql.SliceIndex | simpler/connectors.py:162 | Python slice-bound clamping into `0..n`, negative bounds counting from the end. |
| Sql.Truncated | simpler/connectors.py:161-162 | A query no longer than `max_size` is left as is. |
| Sql.TruncatedLong | simpler/connectors.py:161-162 | When `len(query) > max_size >= 1`, the result is the first `max_size//2` characters, '...', and the last `ceil(max_size/2)` characters: length `max_size + 3`. |
| Sql.TruncatedZero | simpler/connectors.py:161-162 | With `max_size = 0`, `-0 // 2` is 0, so the whole query follows '...'. |
| Sql.ShownText | simpler/connectors.py:161-167 | The printed text is a slice of the truncated query followed by ';'. Only whitespace is cut off on either side, and the slice neither starts nor ends with whitespace. A query no longer than `max_size` is shown whole and stripped, and a longer one takes at most `max_size + 4` characters. |
| Validation.AssertSet | simpler/validation.py:4-8 | A present name returns `data[name]`. An absent optional one returns `default`. An absent required one fails with "not set". |
| Validation.Search | simpler/validation.py:26-44 | True exactly when some character is in the class. |
| Validation.LetterSearch | simpler/validation.py:26 | Searching a-z after lower-casing finds exactly the ASCII letters of either case. |
| Validation.Require | simpler/validation.py:25-48 | `True` demands the class, `False` forbids it, `None` checks nothing. |
| Validation.FirstFailure | simpler/validation.py:21-48 | No failure exactly when no check is violated. Otherwise the reported check is violated and is the first in source order. |
| Validation.FirstFrom | simpler/validation.py:21-48 | From stage `k` on, the first failure is violated, comes no earlier than stage `k`, and precedes every other violation from `k` on. None exactly when nothing from `k` on is violated. |
| Validation.StageFailure | simpler/validation.py:21-48 | A stage reports a check of its own rank that is violated. If it reports nothing, no check of that rank is violated. |
| Validation.PassesNoViolation | simpler/validation.py:21-48 | A string passes exactly when it violates no requested check. |
| Validation.AssertStr | simpler/validation.py:10-51 | Succeeds exactly when the field is optional and absent, or present, a string and passing every requested check. It then returns `data[name]` (or `default`) unchanged. An absent required field fails as unset, a non-string as not a string, and every error names the field. |
| Validation.AssertStrSet | simpler/validation.py:18-19 | A successful `assert_str` returns what `assert_set` returns. |
| Validation.MailRun | simpler/validation.py:94 | The longest run of characters that are neither whitespace nor '@'. |
| Validation.DotIn | simpler/validation.py:94 | Whether a '.' occurs in a range. |
| Validation.MailMatchShape | simpler/validation.py:94 | The greedy matcher accepts exactly the strings that start with `[^@\s]+@[^@\s]+\.[^@\s]+`. |
| Validation.MailMatch | simpler/validation.py:94 | Defines the backtracking match of the mail pattern at the start of the string. |
| Validation.AssertMail | simpler/validation.py:89-95 | Succeeds exactly when the field is optional and absent, or a string starting with the mail pattern. It returns the value. A string not matching fails as not a mail. |
| Validation.MailTrailing | simpler/validation.py:94 | The match is anchored at the start only: any text may follow. |
| Validation.MailExamples | simpler/validation.py:94 | 'a@b.c' and 'a@b.c d' are accepted; 'a@b' and '@b.c' are not. |
| Format.SafeFilename | simpler/format.py:52-58 | The output is no longer than the input and holds none of `/ \ * ; [ ] " : = , < >`. |
| Format.SafeChar | simpler/format.py:58 | A single character is deleted exactly when it is forbidden. |
| Format.SafeConcat | simpler/format.py:58 | Filtering distributes over concatenation, so the kept characters stay in order. |
| Format.SafeCounts | simpler/format.py:58 | Forbidden characters vanish and every other character keeps its number of occurrences. |
| Format.SafeClean | simpler/format.py:58 | Strings without forbidden characters are unchanged. |
| Format.SafeIdempotent | simpler/format.py:58 | Applying `safe_filename` twice equals applying it once. |
| Format.SafeExample | simpler/format.py:58 | 'a/b:c' becomes 'abc'. |

## Left out

- I/O, database execution, cursors, commits, `lastrowid` and the return values of `insert_all`, `update` and `delete` are not modelled. The model stops at the query text and its parameters.
- `print_query`'s `%`-formatting of the parameters and its coloured output are left out, because they depend on Python's formatting of arbitrary values.
- The global `mem_cache` registry, `clear_global_mem_cache` and the identity of the default `frozenset` key are left out. The key function is a parameter.
- Exceptions raised inside callbacks (the search engine's, the cached method's and the `unique` key's) are not modelled: each callback is a total function.
- Python `assert` statements are modelled as failures always, as if Python never runs with `-O`.
- `assert_number`, `assert_id` and `assert_exists` are left out because they rely on `float()` parsing and the file system. `has_symbol` depends on Unicode `\w` and `has_pattern` on an arbitrary regular expression, so neither is modelled.
- Character classes (`\s`, `\d`, `lower`, `strip`) are ASCII-only; Python's Unicode classes are wider.
- The callbacks and file/database helpers named in the repository but outside this core (`load`, `save`, `decompress`, web, mail and the rest) are not part of this model.
- Floating-point helpers (`snap`, `jaccard`, `levenshtein`, `human_*`) are not part of this model.
- Algorithms.Solve: the loop is bounded by a fuel count of pops and answers `OutOfFuel` when it runs out, since Python may loop forever on an infinite state space.
- Algorithms.Solve: penalties are `real` numbers; Python floats, their rounding and NaN are not modelled.
- Algorithms.DeepMerge: dictionaries are maps, so the key order of the result (the keys of `dict1` first, then the new keys of `dict2`, as Python's insertion order gives) is not modelled.
- Math.IsPrimeAsWritten: it is bounded by fuel because the source's loop does not terminate on some inputs; see Findings.
- Math.PrimeList: the float `sqrt`, `ceil` and `n/2` are modelled as an integer square root and floor division.
- Math.BaseChange: it requires `base_to >= 2` and a non-negative value. Python floors in `divmod`, so a negative value (stuck at -1) and `base_to` 1 or -1 loop forever, and `base_to` 0 raises ZeroDivisionError. A `base_to` of -2 or less terminates with a value-preserving list of digits in `(base_to, 0]`, which the model does not cover. A value of 0 gives `[]` in every base.
- Math.Fibonacci, Math.FastFib: they take a natural number. In Python a negative `n` recurses on `n // 2`, which stays at -1, until RecursionError is raised.
- Math.IsPrimeAsWritten, Math.IsPrimeRunSound, Math.IsPrime: `int(sqrt(n))` is modelled as the exact integer square root. Python's float `sqrt` rounds, so for large `n` the bound can be off by one, and for `n` beyond the float range (about 2^1024) it raises OverflowError. "Fails only for negative `n`" holds only under the exact square root.
- Math.Clamp: it is modelled on `real`, not on Python floats.
- Math.PalindromeList: `k <= 0` is modelled as `None`, standing for the `ValueError` raised by `product` with a negative repeat.
- Files.LruCache.constructor: it requires `maxsize >= 1`. With a smaller bound the first call pops from an empty list and raises.
- Files.MemCache.Call: `invoked` and `origin` are ghost records of which arguments reached the method. Python keeps no such record.
- Sql.Chunked: it requires `max_insertions >= 1` when a limit is set. A smaller limit makes the Python loop run forever.
- Sql.InsertAll: a KeyError in a later chunk is reported as the only result. The chunks already sent to the database before it are not modelled.
- Sql.Select, Sql.Update and Sql.Delete take `filters` and `updates` as required inputs. Their Python defaults are lambdas and fail when used.
- Validation.AssertMail: a non-string value fails here as "not a string". Python raises a TypeError from the regular expression.

## Findings

| source | as written | input that shows it | evidently intended | confidence | as-written member | corrected member |
|---|---|---|---|---|---|---|
| simpler/math.py:71-76 | When `n % f == 0` or `n % (f + 2) == 0`, `res` becomes False but `f` only advances in the `else` branch, so the loop repeats the same test forever | `is_prime(25)`, `is_prime(35)` | stop at the first divisor found and return False | not executed | Math.IsPrimeAsWrittenHangs | Math.IsPrime |
| simpler/bioinformatics.py:30 | `.strip('Stop')` strips any of the characters 'S', 't', 'o', 'p' from both ends, so leading and trailing serines ('S') are removed too | `rna_to_protein('UCU')` gives '' | remove only whole 'Stop' markers at the ends, keeping serines | not executed | Bioinformatics.SerineStripped | Bioinformatics.RnaToProteinKeeps |
