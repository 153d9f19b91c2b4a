# Binary-insertion sort of chemoelectric/quicksorts, in Dafny

The quicksorts library sorts small ranges with a binary-insertion sort. This
project models that sort and the helpers around it, in both of the copies that
the library carries.

- **`quicksorts/internal/quicksorts-common.h`** is the shared header. It holds:
  - the element moves `SWAP`, `REVERSE_PREFIX` and `SUBCIRCULATE_RIGHT`, which go through `memcpy`/`memmove`;
  - the Bottenbruch binary search `INSERTION_POSITION`, with a ceiling midpoint;
  - `INSERTION_SORT`, which takes its prefix-maker as a parameter;
  - the 64-entry range stack `STK_MAKE`/`STK_PUSH`/`STK_POP`;
  - the pivot random source: an LCG step whose output is the byte-reversed old seed (`BSWAP64`), and `random_size_t_below`.
- **`quicksorts/unstable-quicksort.h`** is a byte-loop copy of the same sort:
  - `SWAP` exchanges one byte at a time;
  - `SUBCIRCULATE_RIGHT` rotates one byte column at a time;
  - `MAKE_AN_ORDERED_PREFIX` takes the longest leading run and reverses it when it descends.

Modules:

- **`SortSpec`** (sort_spec.dfy) holds the specification shared by both copies:
  - the order `Lt(key, x, y) == key(x) < key(y)`;
  - sortedness in its all-pairs and adjacent-pairs forms;
  - the longest leading runs;
  - reversal;
  - the single-slot right rotation, by slicing and element by element;
  - the insertion point, and the lemmas that one insertion step keeps the loop invariant.
- **`CommonMoves`**, **`CommonStack`** and **`CommonRandom`** (common_*.dfy) model the shared header:
  - an `array<T>` slot holds one element;
  - the stack is a class with the source's 64-entry array and depth;
  - the seed is a field of a class.
- **`ByteView`** (byte_view.dfy) views a byte buffer as elements:
  - element `q` occupies bytes `[elemsz * q, elemsz * q + elemsz)`;
  - `Elems(s, elemsz, n)` is the sequence of the first `n` elements;
  - the lemmas relate byte reads and writes to that view.
- **`UnstableQuicksort`** (unstable_quicksort.dfy) models the byte-loop header on an `array<bv8>`:
  - every method is specified through the element view;
  - every method leaves the bytes past the view unchanged;
  - the byte loops are proved to have the effect of the element-level operations of `SortSpec`: exchange, reversal, right rotation and insertion.

## Model

| member | source | states |
|---|---|---|
| CommonRandom.BswapBytes | quicksorts/internal/quicksorts-common.h:41-49 | byte k of `BSWAP64(x)` is byte 7 - k of `x` |
| CommonRandom.BswapInvolution | quicksorts/internal/quicksorts-common.h:41-49 | reversing the bytes twice gives back the value |
| CommonRandom.BytesDetermine | quicksorts/internal/quicksorts-common.h:41-49 | a 64-bit value is determined by its eight bytes |
| CommonRandom.LcgNext | quicksorts/internal/quicksorts-common.h:114-123 | the least significant bit of the raw LCG seed flips on every step, the weakness the byte reversal is there to hide |
| CommonRandom.RandomSource.constructor | quicksorts/internal/quicksorts-common.h:104-105 | the generator starts from the given seed |
| CommonRandom.RandomSource.RandomUint64 | quicksorts/internal/quicksorts-common.h:107-125 | the new seed is `0xf1357aea2e62a9c5 * old + 1` modulo 2^64; the result is the old seed byte-reversed |
| CommonRandom.RandomSource.RandomSizeTBelow | quicksorts/internal/quicksorts-common.h:127-132 | for `0 < n`, the result is below `n`; it is the next output modulo `n`; the seed advances by one step |
| CommonMoves.Swap | quicksorts/internal/quicksorts-common.h:144-154 | slots `p1` and `p2` exchange their elements; no other slot changes; the result is a permutation |
| CommonMoves.ReversePrefix | quicksorts/internal/quicksorts-common.h:156-171 | the first `pfxLen` slots are reversed and the rest are unchanged; the result is a permutation |
| CommonMoves.InsertionPosition | quicksorts/internal/quicksorts-common.h:186-214 | for `1 <= i` and a sorted `arr[0..i)`, the binary search terminates with `pos <= i`; no element before `pos` sorts after `arr[i]`, and every element in `[pos, i)` does |
| CommonMoves.SubcirculateRight | quicksorts/internal/quicksorts-common.h:216-235 | the array becomes the right rotation of `[left, right]`: `arr[right]` moves to `left`, `[left, right)` moves up one slot, and nothing else changes |
| CommonMoves.InsertionSort | quicksorts/internal/quicksorts-common.h:237-256 | given a prefix-maker that leaves `2 <= pfxLen <= nmemb` with a sorted prefix, the first `nmemb` slots end sorted; they are a permutation of the input; the slots past them are unchanged; a sorted input, or one with `nmemb <= 1`, is left as it was |
| CommonStack.RangeStack.constructor | quicksorts/internal/quicksorts-common.h:258-264 | the stack is empty and all 64 entries are zeroed |
| CommonStack.RangeStack.Push | quicksorts/internal/quicksorts-common.h:266-277 | for `depth < 64`, the depth rises by one and the entry becomes the new top at index `64 - depth` |
| CommonStack.RangeStack.Pop | quicksorts/internal/quicksorts-common.h:279-289 | for `0 < depth`, it returns the top entry and removes it; the entry array is unchanged |
| CommonStack.PushThenPop | quicksorts/internal/quicksorts-common.h:266-289 | last in, first out: a pop right after a push returns the pushed range and restores the contents |
| SortSpec.NonDecreasingChain | quicksorts/unstable-quicksort.h:66-72 | in a run with no adjacent descent, every earlier key is at most every later key |
| SortSpec.NonDecreasingExtend | quicksorts/unstable-quicksort.h:66-72 | the run with no descent grows by an element that does not sort before the run's last element |
| SortSpec.NonIncreasingExtend | quicksorts/unstable-quicksort.h:77-83 | the run with no ascent grows by an element that the run's last element does not sort before |
| SortSpec.NonDecreasingIffSorted | quicksorts/unstable-quicksort.h:66-72 | no adjacent descent holds if and only if no pair is out of order |
| SortSpec.SortedIsOneRun | quicksorts/unstable-quicksort.h:61-72 | on a sorted input, the longest run with no descent is the whole input |
| SortSpec.ReversedInvolution | quicksorts/internal/quicksorts-common.h:156-171 | reversing twice gives back the sequence |
| SortSpec.ReversedMultiset | quicksorts/internal/quicksorts-common.h:156-171 | a reversal is a permutation |
| SortSpec.ReversedPrefixMultiset | quicksorts/unstable-quicksort.h:84 | reversing a prefix permutes the whole sequence |
| SortSpec.NonIncreasingReversedSorted | quicksorts/unstable-quicksort.h:74-85 | a run with no strict ascent is sorted once reversed |
| SortSpec.RotateRightAt | quicksorts/internal/quicksorts-common.h:224-232 | the rotation, element by element: `right` lands at `left`, each slot in `[left, right)` moves up one, and every other slot is kept |
| SortSpec.RotateRightNoop | quicksorts/internal/quicksorts-common.h:219 | rotating a one-slot range changes nothing |
| SortSpec.RotateRightMultiset | quicksorts/internal/quicksorts-common.h:216-235 | a rotation is a permutation |
| SortSpec.RightRotationIff | quicksorts/unstable-quicksort.h:139-154 | the element-wise description of a rotation holds if and only if the result equals the sliced definition |
| SortSpec.RotateRightWithin | quicksorts/internal/quicksorts-common.h:245-253 | a rotation inside the first `n` slots is a rotation of that prefix and leaves the rest alone |
| SortSpec.SortedInsertionPointIsEnd | quicksorts/internal/quicksorts-common.h:205-212 | an element that does not sort before the end of a sorted run is inserted after the run |
| SortSpec.InsertKeepsSorted | quicksorts/internal/quicksorts-common.h:245-253 | inserting at the insertion point keeps a sorted run sorted |
| SortSpec.SortedPermutationUnique | tests/test-int-patterns.c:168-175 | when keys identify elements, as with `int`, two sorted permutations of the same input are equal; so the element-by-element comparison with the system `qsort` must succeed |
| SortSpec.InsertIntoSortedIsNoop | quicksorts/internal/quicksorts-common.h:245-253 | on an already sorted input, every insertion step leaves the array as it is |
| SortSpec.InsertStep | quicksorts/internal/quicksorts-common.h:245-253 | one insertion step makes the run `[0, i + 1)` sorted; it keeps the first `nmemb` elements a permutation; it leaves the elements past `i` alone |
| SortSpec.InsertLoopStep | quicksorts/unstable-quicksort.h:171-179 | the same step, measured against the sequence the loop started from: the elements past the run are still the original ones |
| ByteView.OffsetSucc | quicksorts/unstable-quicksort.h:69-71 | advancing a pointer by `elemsz` moves it to the next element |
| ByteView.SlotFits | quicksorts/unstable-quicksort.h:137-138 | element `q < n` lies inside the first `n` elements' bytes |
| ByteView.OffsetOrder | quicksorts/unstable-quicksort.h:44 | comparing two element pointers compares their indices |
| ByteView.ElemIsSlot | quicksorts/unstable-quicksort.h:137-138 | element `q` of the view is the `elemsz` bytes at `arr + elemsz * q` |
| ByteView.ElemsShape | quicksorts/unstable-quicksort.h:29 | every element of the view is `elemsz` bytes long |
| ByteView.ElemByte | quicksorts/unstable-quicksort.h:31-33 | byte `t` of element `q` is the byte at `arr + elemsz * q + t` |
| ByteView.ElemsUpdate | quicksorts/unstable-quicksort.h:32-33 | writing one byte of element `q` changes that byte of that element and nothing else in the view or past it |
| ByteView.ElemsDetermine | quicksorts/unstable-quicksort.h:159-182 | two buffers with the same element view agree on every byte the view covers |
| ByteView.ViewDeterminesBuffer | quicksorts/unstable-quicksort.h:25-36 | two buffers of one length with the same element view and the same bytes past it are equal, so a move that keeps both changes no byte |
| ByteView.MixStep | quicksorts/unstable-quicksort.h:31-33 | copying one more byte extends a partially copied element by one byte |
| ByteView.MixEnds | quicksorts/unstable-quicksort.h:29 | with no bytes copied an element is its old value, and with all copied it is the new one |
| UnstableQuicksort.SwapByteStep | quicksorts/unstable-quicksort.h:31-33 | exchanging byte `i` of both elements advances the swap by one byte and touches nothing past the view |
| UnstableQuicksort.Swap | quicksorts/unstable-quicksort.h:25-36 | the elements at `p1` and `p2` exchange their bytes; no other element and no byte past the view changes; when both are the same element no byte of the buffer changes |
| UnstableQuicksort.SwapSelfKeepsBytes | quicksorts/unstable-quicksort.h:25-36 | when both pointers name the same element, exchanging its bytes with its own leaves the whole buffer as it was |
| UnstableQuicksort.ReverseStep | quicksorts/unstable-quicksort.h:46-50 | swapping the innermost untouched pair keeps the reversal invariant |
| UnstableQuicksort.ReversalDone | quicksorts/unstable-quicksort.h:44 | once the pointers meet, the prefix is reversed and the rest kept |
| UnstableQuicksort.ReversePrefix | quicksorts/unstable-quicksort.h:38-53 | the first `pfxLen` elements are reversed; the rest of the view and the bytes past it are unchanged |
| UnstableQuicksort.RunNextHolds | quicksorts/unstable-quicksort.h:59 | the pointer `p = arr + elemsz * pfx_len` addresses the element after the run, and `p - elemsz` addresses its last element |
| UnstableQuicksort.ScanNonDecreasing | quicksorts/unstable-quicksort.h:58-73 | starting from two elements in order, it ends with `2 <= pfxLen <= nmemb`, the longest leading run with no descent |
| UnstableQuicksort.ScanNonIncreasing | quicksorts/unstable-quicksort.h:77-83 | it ends with `2 <= pfxLen <= nmemb`, the longest leading run with no strict ascent, ties included |
| UnstableQuicksort.ReverseDescendingRun | quicksorts/unstable-quicksort.h:74-85 | when element 1 sorts before element 0, the longest run with no ascent is reversed; that prefix comes out sorted; the view is a permutation of the input; the bytes past it are unchanged |
| UnstableQuicksort.FirstTwo | quicksorts/unstable-quicksort.h:61-63 | `arr` and `arr + elemsz` hold the first two elements of the view |
| UnstableQuicksort.MakeAnOrderedPrefix | quicksorts/unstable-quicksort.h:55-87 | for `2 <= nmemb`, it ends with `2 <= pfxLen <= nmemb` and a sorted prefix; a non-descending start keeps the longest run with no descent and changes nothing; a descending start reverses the longest run with no ascent; the view is a permutation of the input, and the bytes past it are unchanged |
| UnstableQuicksort.ElementAt | quicksorts/unstable-quicksort.h:113-115 | the bytes at `arr + elemsz * q` are element `q` of the view |
| UnstableQuicksort.InsertionPosition | quicksorts/unstable-quicksort.h:102-130 | for `1 <= i` and sorted elements `[0, i)`, it finds the insertion point of element `i`: after every element that element `i` does not sort before, and before every element that it does |
| UnstableQuicksort.RotatedUniform | quicksorts/unstable-quicksort.h:139-154 | a rotation of equal-sized elements has equal-sized elements |
| UnstableQuicksort.ColumnsEnds | quicksorts/unstable-quicksort.h:139-141 | before the first column the view is the original one, and after the last column it is the rotation |
| UnstableQuicksort.ColumnStart | quicksorts/unstable-quicksort.h:143-146 | the byte saved from element `right` is its original byte `b` |
| UnstableQuicksort.ShiftedByte | quicksorts/unstable-quicksort.h:150-151 | the byte read at `p - elemsz` is byte `b` that element `p`'s slot holds after the rotation |
| UnstableQuicksort.ShiftStep | quicksorts/unstable-quicksort.h:148-151 | copying byte `b` up one element advances the column shift by one element and touches nothing past the view |
| UnstableQuicksort.ColumnFinish | quicksorts/unstable-quicksort.h:153 | storing the saved byte into element `left` completes column `b` |
| UnstableQuicksort.ShiftColumn | quicksorts/unstable-quicksort.h:148-151 | walking from `right` down to `left`, byte `b` of each element in `(left, right]` becomes that of the element below it |
| UnstableQuicksort.CirculateColumn | quicksorts/unstable-quicksort.h:143-153 | after one pass, byte `b` of every element holds its rotated value |
| UnstableQuicksort.CirculateColumns | quicksorts/unstable-quicksort.h:137-154 | after all `elemsz` columns the view is the right rotation of `[left, right]` and the bytes past it are unchanged |
| UnstableQuicksort.SubcirculateRight | quicksorts/unstable-quicksort.h:132-157 | the view becomes its right rotation of `[left, right]`, a no-op when `left == right`; the bytes past it are unchanged |
| UnstableQuicksort.InsertRemaining | quicksorts/unstable-quicksort.h:170-179 | from a sorted prefix of `1 <= pfxLen` elements, each later element is inserted at its place; the view ends sorted and a permutation of where it started; the bytes past it are unchanged |
| UnstableQuicksort.InsertionSort | quicksorts/unstable-quicksort.h:159-182 | the first `nmemb` elements end sorted and a permutation of the input; the bytes past them are unchanged; a sorted input, or one with `nmemb <= 1`, is left byte for byte as it was |

Two properties are not stated in any one contract:

- **Loop invariant.** The outer loop of `INSERTION_SORT` keeps the elements from `i` onward as they were when the prefix was made. This is an invariant of `UnstableQuicksort.InsertRemaining` and `CommonMoves.InsertionSort`.
- **Ties in the descending run.** The comment at quicksorts/unstable-quicksort.h:76 labels the second branch of `MAKE_AN_ORDERED_PREFIX` "Decreasing order". The loop at lines 77-83 keeps extending the run while the previous element does not sort before the next one (`!LT(prev, next)`: no strict ascent), so ties join the run and the reversal reorders them; that is what makes this branch unstable. The model follows the code: the run is non-increasing, not strictly decreasing.

## Left out

- The ticket spinlock around the seed (quicksorts/internal/quicksorts-common.h:55-89) is left out because it is concurrency. The seed is a field of one single-threaded object, and `random_uint64`'s read and replace of it is a plain update.
- `__builtin_bswap64` is not modelled. Only the portable `BSWAP64` expansion is; `CommonRandom.BswapBytes` states the byte reversal that both compute.
- The model covers the element moves, the insertion sort, the range stack and the pivot random source; the test drivers (tests/*.c), the entry points (unstable_qsort.c, unstable-qsort.c, unstable_qsort_r.c) and the quicksort driver, partition and pivot macros are not part of this model.
- `memcpy`, `memmove` and the scratch buffer `elembuf` are not modelled byte for byte in the shared header; it is modelled at element level.
  - A move of one element is an assignment to one slot of an `array<T>`.
  - The block `memmove` of `SUBCIRCULATE_RIGHT` is a simultaneous assignment.
  - The byte-level `ByteView` model covers only the byte-loop header, whose loops are written out in the source.
- The comparator `LT` is a key function, so `Lt` is always a strict weak order. What the sort does with a comparator that is not one (undefined order, but no crash) is not modelled.
- Pointers are byte offsets from `arr`.
  - Where a proof must know which element a pointer addresses, a ghost index or a ghost view size `n` names it.
  - The source has neither; they are ghost and do not change what the methods compute.
- Sizes and indices are unbounded naturals. Overflow of `elemsz * nmemb` in `size_t` is not modelled: the buffer is required to hold `nmemb` elements, as the caller guarantees.
- CommonMoves.InsertionSort: the prefix-maker parameter of `INSERTION_SORT` is represented by what it must deliver, a `pfxLen` with `2 <= pfxLen <= nmemb` and a sorted prefix, rather than by a callable. The byte-loop `InsertionSort` calls its own `MakeAnOrderedPrefix`.
- CommonMoves.Swap: requires `p1 != p2`, because `memcpy` between one element and itself is an overlapping copy. The only caller, `REVERSE_PREFIX`, swaps `p_left < p_right`.
- UnstableQuicksort.ReversePrefix: requires `1 <= pfxLen` only so that the ghost index of the right-hand element, `pfxLen - 1`, is a natural number; every caller passes at least 2. For `pfx_len == 0` both headers compute the same wrapped-around `(pfx_len - 1) * elemsz`, and CommonMoves.ReversePrefix, which keeps no such index, treats 0 as a call that changes nothing.
- CommonMoves.InsertionPosition and UnstableQuicksort.InsertionPosition: the shift `(k - j) >> 1` is written `(k - j) / 2`, which is the same on unsigned values.
- CommonRandom.RandomSource.RandomSizeTBelow: requires `0 < n < 2^64`.
  - `n` is a `size_t`, and the remainder by 0 is undefined.
  - The remainder is taken on the unbounded value of the 64-bit output, as `%` on `uint64_t` does.
- The stack's entry pointer `p` is a byte offset, and its depth, an `int` in the source, is a natural. `STK_POP` writes into the caller's `arr` and `nmemb`; `Pop` returns the two values instead.
