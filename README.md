# galgame server core, modelled in Dafny

This project models the hand-written core of the galgame server: its
container library, the text codec of its custom TCP protocol, the CRC-32
and cipher-envelope framing, the scheduler's task units and queues, the
HTTP forwarder's routing, and the static web server's request handling.
Each module follows one source file:

- `Algorithm`, `Utility`, `Hashing`: the iterator algorithms `find`, `copy`
  and `swap`; `pair`; the uint64 hash functors and the five multiplier
  hashes.
- `Memory`: the buffer moves (`memmove`, `memcpy`, fill and shift loops)
  the containers perform, each stated as new contents in terms of old.
- `Vectors`, `Strings`, `Stacks`, `Lists`, `Queues`: the growable `vector`
  and NUL-terminated `string` over arrays, the `stack` adapter, the circular
  doubly linked `list` with its sentinel, and the `queue` adapter and
  binary-heap `priority_queue`. Each is a class whose methods update the
  fields in place and state the new contents.
- `BitSets`, `Blooms`, `HashTables`, `RedBlackTrees`, `BinaryTrees`,
  `AvlTrees`, `MapsAndSets`: the bit set and the Bloom filter over it, the
  chained hash table that keeps insertion order, the red-black tree, the
  plain search tree, the AVL tree, and the map and set wrappers over them.
  Trees are immutable values held in a class field. Each rotation is a
  rebuilt subtree, and each fix-up loop is the recursion back up the search
  path. Ordering, colour rules, balance factors and contents are proved for
  every push and pop.
- `Decimal`, `HeaderText`, `Auxiliary`, `Protocol`: decimal text, the line
  and token reading shared by both header parsers, `protocol_header` with
  its integrity check, and the request and response headers and messages.
  Rendering a header and parsing the text back gives the same header.
- `Crc32`, `Envelope`: the reflected table-driven CRC-32 (polynomial
  0xEDB88320, ISO/IEC 3309; the reference algorithm is section 8 of
  RFC 1952) and the "CW" envelope layouts of the GCM and MAC ciphers, with
  the cryptography as opaque bytes.
- `AnnularQueues`, `Units`, `Integration`, `Ranks`: the ring-buffer queue,
  the status machine of task units and the units that depend on others, the scheduler's enums and
  pool configuration, and the FIFO and priority task queues with their
  backpressure modes. These are modelled one thread at a time. A call that
  would block on another thread reports that it waits and changes nothing.
- `Forwarder`, `StaticServer`: Host header parsing, upstream matching and
  routing of the forwarder; MIME types, target mapping and the responses of
  the static server.
- `Wrappers`: `Option` and `Result`. A C++ `throw` is a `Fail`, and a null
  pointer or `end()` is `None`.

Where the code and its documentation disagree, the model follows the code.
Examples: a capacity of 0 for the annular queue means 1, not unbounded; the
priority queue pops its lowest priority first. Where the code is evidently
wrong, the as-written behaviour is modelled by its own member with a lemma
that exhibits it, and the rest of the model uses the corrected one (see
Findings). The `unit_reliance` list constructor is such a case: it removes
the non-null dependencies, which `Units.Reliance.FromListAsWritten` models,
while `Units.Reliance.constructor` keeps them.

## Model

| member | source | states |
|---|---|---|
| Hashing.CastU64 | galgameserver/model/container/simulate_hash.hpp:68-72 | `static_cast<uint64_t>` keeps a value in [0, 2^64) and maps a negative value x to x + 2^64 |
| Hashing.ScalarHash | galgameserver/model/container/simulate_hash.hpp:68-72 | the base hash of an integer key is a uint64, below 2^64 |
| Hashing.HashString | galgameserver/model/container/simulate_hash.hpp:73-81 | the character loop returns StringHash: the sum of 31 times each (signed) character code, wrapping in uint64 |
| Hashing.StringHashIsScaledSum | galgameserver/model/container/simulate_hash.hpp:73-81 | the wrapped running sum equals 31 times the plain character-code sum, reduced mod 2^64 |
| Hashing.StringHashOrderFree | galgameserver/model/container/simulate_hash.hpp:73-81 | strings with the same characters in any order (equal multisets) hash alike |
| Hashing.SdmmHash | galgameserver/model/container/simulate_hash.hpp:157-162 | `hash_sdmmhash` is a uint64, below 2^64 |
| Hashing.BkdrHash | galgameserver/model/container/simulate_hash.hpp:163-168 | `hash_bkdrhash` is a uint64, below 2^64 |
| Hashing.DjbHash | galgameserver/model/container/simulate_hash.hpp:169-174 | `hash_djbhash` is a uint64, below 2^64 |
| Hashing.ApHash | galgameserver/model/container/simulate_hash.hpp:175-180 | `hash_aphash` is a uint64, below 2^64 |
| Hashing.PjwHash | galgameserver/model/container/simulate_hash.hpp:181-186 | `hash_pjwhash`, a wrapping shift-and-add, is a uint64 |
| Hashing.PjwHashIsTimesFive | galgameserver/model/container/simulate_hash.hpp:181-186 | `(h << 2) + h` with uint64 wrap-around equals 5h mod 2^64 |
| Algorithm.FirstIndexOf | galgameserver/model/container/simulate_algorithm.hpp:124-137 | the index of the first element equal to v, or the length when none: everything before it differs from v |
| Algorithm.FirstIndexUnique | galgameserver/model/container/simulate_algorithm.hpp:124-137 | any index that holds v and has no v before it is the one `find` returns |
| Algorithm.Find | galgameserver/model/container/simulate_algorithm.hpp:124-137 | the scan over [lo, hi) stops at lo + FirstIndexOf(a[lo..hi], v), at hi when v is absent |
| Algorithm.Copy | galgameserver/model/container/simulate_algorithm.hpp:66-77 | the destination holds src[lo..hi] at d and is unchanged elsewhere |
| Algorithm.Swap | galgameserver/model/container/simulate_algorithm.hpp:177-183 | the two slots exchange their values and every other slot is unchanged |
| Utility.MakePair | galgameserver/model/container/simulate_utility.hpp:191-195 | `make_pair(a, b)` has first a and second b |
| Utility.CopyOf | galgameserver/model/container/simulate_utility.hpp:87-91 | a copy-constructed (or copy-assigned) pair equals its source |
| Utility.Equal | galgameserver/model/container/simulate_utility.hpp:121-128 | `operator==` holds iff both fields are equal (the self-comparison shortcut agrees) |
| Utility.NotEqual | galgameserver/model/container/simulate_utility.hpp:129-132 | `operator!=` holds iff some field differs |
| Stacks.Stack.constructor | galgameserver/model/container/simulate_stack.hpp:160 | a default stack is empty |
| Stacks.Stack.FromList | galgameserver/model/container/simulate_stack.hpp:133-139 | the initializer-list constructor pushes each element in order: the contents are the list |
| Stacks.Stack.Single | galgameserver/model/container/simulate_stack.hpp:140-143 | the one-element constructor holds exactly that element |
| Stacks.Stack.Size | galgameserver/model/container/simulate_stack.hpp:104-107 | `size()` is the number of stored elements |
| Stacks.Stack.Empty | galgameserver/model/container/simulate_stack.hpp:114-117 | `empty()` holds iff there are no elements |
| Stacks.Stack.Top | galgameserver/model/container/simulate_stack.hpp:109-113 | `top()` is the most recently pushed element (the vector's back) |
| Stacks.Stack.Push | galgameserver/model/container/simulate_stack.hpp:89-98 | `push` appends x on top and keeps the rest |
| Stacks.Stack.Pop | galgameserver/model/container/simulate_stack.hpp:99-102 | `pop` removes the top; an empty stack stays empty |
| Stacks.PushPopRestores | galgameserver/model/container/simulate_stack.hpp:89-102 | a push followed by a pop leaves the contents as they were |
| Vectors.GrowthAsWrittenLeavesNoRoom | server/model/container/simulate_vector.hpp:329-339 | as written, a full vector with a non-null buffer of capacity 0 doubles to capacity 0, so the element is written past the buffer |
| Vectors.GrowthAsWritten | server/model/container/simulate_vector.hpp:329-339 | as written, the growth leaves no room exactly when the buffer is non-null with capacity 0; a null buffer grows to a positive capacity |
| Vectors.Growth | server/model/container/simulate_vector.hpp:329-339 | the corrected growth always exceeds the old capacity and agrees with the source (10 for a null buffer, double otherwise) wherever the source leaves room |
| Vectors.Vector.Capacity | server/model/container/simulate_vector.hpp:155-158 | `capacity()` is at least the number of elements |
| Vectors.Vector.Empty | server/model/container/simulate_vector.hpp:170-173 | `empty()` holds iff there are no elements |
| Vectors.Vector.constructor | server/model/container/simulate_vector.hpp:185-190 | a default vector has no buffer, no elements and capacity 0 |
| Vectors.Vector.Filled | server/model/container/simulate_vector.hpp:191-198 | `vector(n, v)` holds n copies of v and its capacity is n |
| Vectors.Vector.FromList | server/model/container/simulate_vector.hpp:199-209 | the initializer-list vector holds the list's elements with capacity equal to their number |
| Vectors.Vector.Front | server/model/container/simulate_vector.hpp:160-163 | `front()` is the first element |
| Vectors.Vector.Back | server/model/container/simulate_vector.hpp:165-168 | `back()` is the last element |
| Vectors.Vector.Find | server/model/container/simulate_vector.hpp:210-228 | `find(i)` succeeds iff i < size() and then gives element i; otherwise the range fault |
| Vectors.Vector.At | server/model/container/simulate_vector.hpp:390-408 | `operator[]` checks against the capacity, not the size: it succeeds iff i < capacity() and returns buffer slot i, which is element i below the size |
| Vectors.Vector.Resize | server/model/container/simulate_vector.hpp:296-328 | growing keeps the elements and fills the new slots with v; a capacity that is already large enough leaves the buffer untouched |
| Vectors.Vector.SizeAdjust | server/model/container/simulate_vector.hpp:229-256 | `size_adjust(n, v)` truncates to n elements when n is smaller, and otherwise keeps the elements and pads the buffer with v |
| Vectors.Vector.PushBack | server/model/container/simulate_vector.hpp:329-353 | `push_back` appends x; a full buffer first grows to Growth(capacity) |
| Vectors.Vector.PopBack | server/model/container/simulate_vector.hpp:354-361 | `pop_back` drops the last element, does nothing on an empty vector, and leaves the buffer as it was |
| Vectors.Vector.PushFront | server/model/container/simulate_vector.hpp:362-377 | `push_front` puts x before the old elements; a full buffer first grows to Growth(capacity) |
| Vectors.Vector.PopFront | server/model/container/simulate_vector.hpp:378-389 | `pop_front` drops the first element and does nothing on an empty vector |
| Vectors.Vector.Erase | server/model/container/simulate_vector.hpp:284-295 | `erase(p)` removes element p, keeps the order of the rest, and returns the old end position |
| Vectors.Vector.Append | server/model/container/simulate_vector.hpp:449-468 | `operator+=` appends the other vector's elements; an empty other leaves everything unchanged, and the buffer grows to exactly the sum of sizes when it is too small |
| Memory.WriteAt | server/model/container/simulate_vector.hpp:463-466 | the copy loop puts the sequence at the offset and leaves every other slot as it was |
| Memory.Fill | server/model/container/simulate_vector.hpp:310-313 | the fill loop writes the value into every slot of the range and nowhere else |
| Memory.ShiftRight | server/model/container/simulate_vector.hpp:370-373 | the loop of `push_front` moves the first n elements one slot right; slot 0 keeps its value and slots past n are untouched |
| Memory.ShiftLeft | server/model/container/simulate_vector.hpp:382-385 | the loop of `pop_front` and `erase` moves the elements after `from` one slot left up to n; slot n - 1 keeps its old value |
| Strings.StrNCpyCopies | galgameserver/model/container/simulate_string.hpp:483-495 | the `strncpy` copy used by `push_back(string)` and `operator+` is a plain copy of text without an embedded NUL |
| Strings.StrNCpyAtNul | galgameserver/model/container/simulate_string.hpp:483-495 | once `strncpy` meets a NUL it writes only NULs |
| Strings.UpperOnlyLetters | galgameserver/model/container/simulate_string.hpp:311-322 | upper-casing maps each a..z to A..Z by subtracting 32 and leaves every other char unchanged |
| Strings.LowerAfterUpper | galgameserver/model/container/simulate_string.hpp:311-334 | lowercasing after uppercasing equals lowercasing |
| Strings.ReversedTwice | galgameserver/model/container/simulate_string.hpp:564-584 | reversing twice gives back the original text |
| Strings.ReversedAppend | galgameserver/model/container/simulate_string.hpp:564-584 | the reverse of s + t is reverse(t) + reverse(s) |
| Strings.LexTrichotomy | galgameserver/model/container/simulate_string.hpp:697-720 | the order of `<` and `>` is strict and total: exactly one of a < b, a == b, b < a |
| Strings.PrefixIsLess | galgameserver/model/container/simulate_string.hpp:697-708 | a proper prefix compares smaller |
| Strings.InsertLayout | galgameserver/model/container/simulate_string.hpp:356-384 | moving the tail right by the inserted length and writing sub at pos leaves text[..pos] + sub + text[pos..] in the buffer |
| Strings.Str.constructor | galgameserver/model/container/simulate_string.hpp:246-261 | the default string holds the single char " " with capacity 1 and a terminator after it |
| Strings.Str.FromCString | galgameserver/model/container/simulate_string.hpp:246-261 | construction from a C string copies its chars, a null pointer gives the empty string, and capacity is the length |
| Strings.Str.FromList | galgameserver/model/container/simulate_string.hpp:296-304 | construction from a char list holds exactly those chars with capacity their count |
| Strings.Str.Front | galgameserver/model/container/simulate_string.hpp:241 | `front()` is the first char, or the terminator of an empty string |
| Strings.Str.Back | galgameserver/model/container/simulate_string.hpp:236 | `back()` is the last char, or NUL when empty |
| Strings.Str.At | galgameserver/model/container/simulate_string.hpp:721-759 | `operator[]` succeeds exactly for indices up to and including the size, giving the terminator at the size, and fails above it |
| Strings.Str.AllocateResources | galgameserver/model/container/simulate_string.hpp:455-470 | the buffer grows to n only when n exceeds the capacity, never shrinks, and the contents are kept |
| Strings.Str.Uppercase | galgameserver/model/container/simulate_string.hpp:311-322 | the contents become their upper-case form and the terminator stays |
| Strings.Str.Lowercase | galgameserver/model/container/simulate_string.hpp:323-334 | the contents become their lower-case form and the terminator stays |
| Strings.Str.Prepend | galgameserver/model/container/simulate_string.hpp:339-355 | the contents become sub followed by the old contents, with the capacity grown to fit when needed |
| Strings.Str.InsertSubString | galgameserver/model/container/simulate_string.hpp:356-384 | fails and changes nothing when pos is past the size; otherwise the contents become old[..pos] + sub + old[pos..] |
| Strings.Str.SubString | galgameserver/model/container/simulate_string.hpp:431-454 | fails unless start <= end <= size; otherwise gives the chars in [start, end) and leaves the receiver alone |
| Strings.Str.SubStringFrom | galgameserver/model/container/simulate_string.hpp:385-430 | fails when start is past the size; otherwise gives the chars from start to the end |
| Strings.Str.PushBack | galgameserver/model/container/simulate_string.hpp:471-482 | appends c; a full buffer grows to 2 when the capacity is 0 and doubles otherwise |
| Strings.Str.Append | galgameserver/model/container/simulate_string.hpp:483-495 | appends the `strncpy` copy of the other string's contents, growing to the summed size when needed |
| Strings.Str.AppendCString | galgameserver/model/container/simulate_string.hpp:496-512 | a null pointer changes nothing; otherwise the C string's chars are appended |
| Strings.Str.Resize | galgameserver/model/container/simulate_string.hpp:513-542 | the size becomes n; above the capacity the new positions hold the fill char, within it only the size and terminator change |
| Strings.Str.ReverseAsWritten | galgameserver/model/container/simulate_string.hpp:564-584 | `reverse` as written fails on an empty string and otherwise returns a space followed by the reversed contents |
| Strings.Str.Reverse | galgameserver/model/container/simulate_string.hpp:564-584 | the corrected `reverse` fails on an empty string and otherwise returns exactly the reversed contents |
| Strings.Str.Equal | galgameserver/model/container/simulate_string.hpp:682-696 | `==` holds iff both contents are equal, i.e. equal sizes and equal chars everywhere |
| Strings.Str.Less | galgameserver/model/container/simulate_string.hpp:697-708 | `<` is the lexicographic order on signed chars with a proper prefix smaller |
| Strings.Str.Greater | galgameserver/model/container/simulate_string.hpp:709-720 | `>` is `<` with the operands swapped |
| Strings.Str.Concat | galgameserver/model/container/simulate_string.hpp:760-771 | `operator+` has the summed length and, for text without NULs, is the concatenation of both contents |
| Strings.ReverseAsWrittenAddsSpace | galgameserver/model/container/simulate_string.hpp:564-584 | the as-written reverse of "ab" is " ba", not "ba" |
| Lists.List.NodesDistinct | server/model/container/simulate_list.hpp:139-297 | the ring's links alone keep every element node distinct |
| Lists.List.OthersDiffer | server/model/container/simulate_list.hpp:139-297 | every element node differs from the one at position m |
| Lists.List.constructor | server/model/container/simulate_list.hpp:275-298 | `create_head()`: a fresh list is empty and its sentinel points at itself both ways |
| Lists.List.FromList | server/model/container/simulate_list.hpp:331-339 | initializer-list construction holds the listed values in order |
| Lists.List.Empty | server/model/container/simulate_list.hpp:386-389 | `empty()` holds iff there are no elements |
| Lists.List.Size | server/model/container/simulate_list.hpp:411-421 | `size()`, by walking the ring back to the sentinel, counts exactly the elements |
| Lists.List.Front | server/model/container/simulate_list.hpp:425-442 | `front()` is the first value, or the sentinel's value-initialised element on an empty list |
| Lists.List.Back | server/model/container/simulate_list.hpp:425-442 | `back()` is the last value, or the sentinel's element on an empty list |
| Lists.List.Insert | server/model/container/simulate_list.hpp:474-502 | a null position fails and changes nothing; otherwise x lands just before the position, the new node is returned, and every other value keeps its place and order |
| Lists.List.Erase | server/model/container/simulate_list.hpp:530-552 | a null position fails and changes nothing; otherwise exactly that node goes, the rest keep their order, and its successor is returned |
| Lists.List.PushBack | server/model/container/simulate_list.hpp:444-447 | x is appended at the end |
| Lists.List.PushFront | server/model/container/simulate_list.hpp:449-452 | x is put at the front |
| Lists.List.PopBack | server/model/container/simulate_list.hpp:464-467 | the last value is removed |
| Lists.List.PopFront | server/model/container/simulate_list.hpp:469-472 | the first value is removed and the new first position returned |
| Lists.List.Resize | server/model/container/simulate_list.hpp:553-572 | a longer list is cut to its first n values, a shorter one padded with copies of v up to n |
| Lists.List.Clear | server/model/container/simulate_list.hpp:573-585 | every element is detached and the sentinel again points at itself both ways |
| Lists.List.Append | server/model/container/simulate_list.hpp:626-637 | `+=` appends the other list's values in order and leaves the other list unchanged |
| Lists.Concat | server/model/container/simulate_list.hpp:615-625 | `operator+` is a new list of a's values followed by b's, and neither operand changes |
| Queues.Queue.constructor | server/model/container/simulate_queue.hpp:141 | a default queue is empty |
| Queues.Queue.FromList | server/model/container/simulate_queue.hpp:129-136 | initializer-list construction pushes each value in order, so the queue holds them front to back |
| Queues.Queue.Single | server/model/container/simulate_queue.hpp:137-140 | `queue(v)` holds just v |
| Queues.Queue.Push | server/model/container/simulate_queue.hpp:84-92 | push appends at the back |
| Queues.Queue.Pop | server/model/container/simulate_queue.hpp:94-97 | pop removes the front value |
| Queues.Queue.Size | server/model/container/simulate_queue.hpp:99-102 | size is the number of queued values |
| Queues.Queue.Empty | server/model/container/simulate_queue.hpp:104-107 | empty holds iff nothing is queued |
| Queues.Queue.Front | server/model/container/simulate_queue.hpp:109-112 | front is the oldest queued value; on an empty queue it is the underlying list's sentinel element |
| Queues.Queue.Back | server/model/container/simulate_queue.hpp:114-117 | back is the newest queued value; on an empty queue it is the underlying list's sentinel element |
| Queues.FirstInFirstOut | server/model/container/simulate_queue.hpp:84-112 | on an empty queue, after pushing x then y, the front is x and popping leaves exactly y |
| Queues.RootDominates | server/model/container/simulate_queue.hpp:239-263 | in heap order the root ranks at least as high as every element |
| Queues.SiftUpStep | server/model/container/simulate_queue.hpp:246-263 | one sift-up swap with a lower-ranked parent moves the only fault of heap order up to the parent |
| Queues.SiftUpDone | server/model/container/simulate_queue.hpp:246-263 | sift-up stops with heap order restored when it reaches the root or a parent that does not rank lower |
| Queues.SiftDownStep | server/model/container/simulate_queue.hpp:264-291 | swapping a parent with its higher-ranked child moves the only fault of heap order down to that child |
| Queues.SiftDownDone | server/model/container/simulate_queue.hpp:264-291 | sift-down stops with heap order restored when the parent ranks no lower than its children |
| Queues.PopLayout | server/model/container/simulate_queue.hpp:315-320 | swapping the root with the last slot and dropping it removes exactly one occurrence of the root and leaves heap order broken only at the root |
| Queues.PriorityQueue.constructor | server/model/container/simulate_queue.hpp:321-324 | a default priority queue is empty and keeps its comparator |
| Queues.PriorityQueue.FromList | server/model/container/simulate_queue.hpp:325-332 | initializer-list construction pushes each value, so the queue holds exactly them in heap order |
| Queues.PriorityQueue.SiftUp | server/model/container/simulate_queue.hpp:246-263 | `priority_queue_adjust_upwards` restores heap order, keeps the multiset of elements and touches nothing past the size |
| Queues.PriorityQueue.SiftDown | server/model/container/simulate_queue.hpp:264-291 | `priority_queue_adjust_downwards` restores heap order, keeps the multiset of elements and touches nothing past the size |
| Queues.PriorityQueue.Push | server/model/container/simulate_queue.hpp:298-302 | push adds exactly one x and keeps heap order |
| Queues.PriorityQueue.Top | server/model/container/simulate_queue.hpp:303-306 | top is an element no other element ranks above: the maximum under `less`, the minimum under `greater` |
| Queues.PriorityQueue.Pop | server/model/container/simulate_queue.hpp:315-320 | pop removes exactly one occurrence of the old top and keeps heap order |
| Queues.PriorityQueue.Size | server/model/container/simulate_queue.hpp:311-314 | size is the number of elements |
| Queues.PriorityQueue.Empty | server/model/container/simulate_queue.hpp:307-310 | empty holds iff there are no elements |
| BitSets.OrMask | server/model/container/simulate_base.hpp:1961-1971 | `w \| (1 << k)` turns bit k on and changes no other bit of the word |
| BitSets.AndNotMask | server/model/container/simulate_base.hpp:1972-1982 | `w & ~(1 << k)` turns bit k off and changes no other bit of the word |
| BitSets.SamePosition | server/model/container/simulate_base.hpp:1964-1965 | word v / 32 and bit v % 32 together determine v |
| BitSets.SetChangesOnlyV | server/model/container/simulate_base.hpp:1961-1971 | after `set(v)` position v is on and every other position is as it was |
| BitSets.ResetChangesOnlyV | server/model/container/simulate_base.hpp:1972-1982 | after `reset(v)` position v is off and every other position is as it was |
| BitSets.BitSet.constructor | server/model/container/simulate_base.hpp:1935 | a default bit set has no words and a zero counter |
| BitSets.BitSet.WithCapacity | server/model/container/simulate_base.hpp:1936-1941 | `bit_set(n)` has n / 32 + 1 zero words and a zero counter |
| BitSets.BitSet.Resize | server/model/container/simulate_base.hpp:1942-1946 | the counter restarts at 0; the words are replaced by zeros only when the buffer must grow |
| BitSets.BitSet.Set | server/model/container/simulate_base.hpp:1961-1971 | fails for a word past the buffer; otherwise only bit v changes, to on, and the uint64 counter goes up by one whatever the bit was |
| BitSets.BitSet.Reset | server/model/container/simulate_base.hpp:1972-1982 | fails for a word past the buffer; otherwise only bit v changes, to off, and the counter goes down by one, wrapping below 0 |
| BitSets.BitSet.Test | server/model/container/simulate_base.hpp:1987-1998 | false whenever the counter is 0; otherwise bit v, or the out-of-range fault |
| BitSets.BitSet.Size | server/model/container/simulate_base.hpp:1983-1986 | `size()` is the `uint64_t` counter of set and reset calls, below 2^64 |
| BitSets.SetThenTest | server/model/container/simulate_base.hpp:1961-1998 | after `set(v)` without the counter wrapping, `test(v)` is true and any other position tests as before |
| BitSets.ResetThenTest | server/model/container/simulate_base.hpp:1972-1998 | after `reset(v)`, `test(v)` is false and any other position tests as before while the counter stays nonzero |
| Blooms.Positions | galgameserver/model/container/simulate_bloom.hpp:63-67 | the three positions sdmm(h), djb(h) and pjw(h) modulo the capacity all lie below the capacity |
| Blooms.WithBitsOn | galgameserver/model/container/simulate_bloom.hpp:76-84 | setting a list of positions turns exactly those positions on and leaves every other position alone |
| Blooms.BloomFilter.Default | galgameserver/model/container/simulate_bloom.hpp:45-49 | the default filter has capacity 1000 and a cleared bit set of 1000 / 32 + 1 words |
| Blooms.BloomFilter.constructor | galgameserver/model/container/simulate_bloom.hpp:50-54 | `bloom_filter(n)` has capacity n and a cleared bit set of n / 32 + 1 words |
| Blooms.BloomFilter.Test | galgameserver/model/container/simulate_bloom.hpp:63-75 | true iff the bit set's counter is nonzero and all three positions of x are on |
| Blooms.BloomFilter.Size | galgameserver/model/container/simulate_bloom.hpp:55-58 | `size()` is the bit set's `uint64_t` call counter, below 2^64 |
| Blooms.BloomFilter.Set | galgameserver/model/container/simulate_bloom.hpp:76-84 | sets exactly the three positions of x and adds three to the bit set's counter |
| Blooms.SetThenTest | galgameserver/model/container/simulate_bloom.hpp:63-85 | no false negatives: after `set(x)`, `test(x)` holds and anything that tested true still does, unless the counter wraps to 0 |
| HashTables.Search | server/model/container/simulate_base.hpp:1894-1902 | the chain walk of `find` returns an element of the chain with key k, and fails only when no element of the chain has key k |
| HashTables.RemoveValue | server/model/container/simulate_base.hpp:1823-1881 | unlinking y from the global list removes exactly one occurrence of y |
| HashTables.GrownCapacity | server/model/container/simulate_base.hpp:1625 | a rehash grows the capacity: to 10 from 0, else to double |
| HashTables.NeedsRehash | server/model/container/simulate_base.hpp:1622 | the rehash test compares size × 10 with capacity × load factor, each reduced modulo 2^64 as `uint64_t` products are; a table of capacity 0 always rehashes, and without wrap-around the test is the plain comparison |
| HashTables.HugeLoadFactorAlwaysRehashes | server/model/container/simulate_base.hpp:1622 | with capacity 10 and load factor 2^63 the right-hand product wraps to 0, so every push rehashes |
| HashTables.ChainSnoc | server/model/container/simulate_base.hpp:1696-1717 | pushing x puts it at the head of its own bucket's chain and leaves every other chain alone |
| HashTables.ChainMembers | server/model/container/simulate_base.hpp:1615-1717 | a bucket's chain holds exactly the stored elements that hash to it |
| HashTables.SearchChain | server/model/container/simulate_base.hpp:1882-1904 | in a table where nothing clashes, the walk of bucket b for key k finds y iff y is stored, has key k and hashes to b |
| HashTables.SearchAbsent | server/model/container/simulate_base.hpp:1882-1904 | `find` fails exactly when no stored element has v's key and bucket |
| HashTables.UnambiguousSnoc | server/model/container/simulate_base.hpp:1615-1717 | a push refused for every clash keeps the table free of clashes |
| HashTables.ChainRemove | server/model/container/simulate_base.hpp:1823-1881 | removing a stored y from the global list removes y's key from y's chain and leaves every other chain alone |
| HashTables.RemoveUnambiguous | server/model/container/simulate_base.hpp:1823-1881 | popping keeps the table free of clashes |
| HashTables.RemoveDistinct | server/model/container/simulate_base.hpp:1823-1881 | after popping y, y is no longer in the global list |
| HashTables.RemoveAbsent | server/model/container/simulate_base.hpp:1823-1881 | after popping the element that clashes with v, nothing stored clashes with v |
| HashTables.ClashOfDouble | server/model/container/simulate_base.hpp:1622-1695 | doubling the capacity only splits buckets: two elements sharing a bucket afterwards shared one before |
| HashTables.DoubleUnambiguous | server/model/container/simulate_base.hpp:1622-1695 | a rehash to double capacity keeps the table free of clashes |
| HashTables.DoubleAbsent | server/model/container/simulate_base.hpp:1622-1695 | a rehash to double capacity keeps an absent element absent |
| HashTables.PopDropsChain | server/model/container/simulate_base.hpp:1436-1448 | as written, popping the head of a two-element chain [11, 1] empties the bucket, so 1 stays in the global list but can no longer be found |
| HashTables.UnlinkAsWritten | server/model/container/simulate_base.hpp:1436-1448 | as written, a match at the head of the chain empties the whole bucket; otherwise the unlink agrees with the intended RemoveKey |
| HashTables.HashTable.Default | server/model/container/simulate_base.hpp:1453-1459 | the default table is empty with capacity 10 and load factor 7 |
| HashTables.HashTable.constructor | server/model/container/simulate_base.hpp:1461-1467 | `hash_table(n)` is empty with capacity n and load factor 7 |
| HashTables.HashTable.ChangeLoadFactor | server/model/container/simulate_base.hpp:1550-1558 | a factor below 1 is refused and changes nothing; otherwise the load factor becomes f, a `uint64_t`, and nothing else changes |
| HashTables.HashTable.Found | server/model/container/simulate_base.hpp:1882-1904 | what `find` returns: nothing in an empty table or when nothing stored clashes with v, otherwise a stored element with v's key and bucket |
| HashTables.HashTable.Find | server/model/container/simulate_base.hpp:1882-1904 | the walk of `find` returns exactly Found(v) |
| HashTables.HashTable.Rehash | server/model/container/simulate_base.hpp:1622-1695 | the rehash moves to GrownCapacity and keeps every element, the size and the insertion order |
| HashTables.HashTable.Push | server/model/container/simulate_base.hpp:1615-1718 | refused and nothing changed when `find(v)` succeeds; otherwise v joins the end of the insertion order, the size grows by one, the capacity grows when NeedsRehash holds of the old size, capacity and load factor, and v is then found |
| HashTables.HashTable.Pop | server/model/container/simulate_base.hpp:1823-1881 | with the chain unlinked as intended: refused when `find(v)` fails; otherwise exactly the element found leaves the insertion order, the size drops by one and v is no longer found |
| HashTables.HashTable.Unlink | server/model/container/simulate_base.hpp:1823-1881 | the intended chain walk of `pop` removes the first element with key k |
| HashTables.HashTable.PopLayout | server/model/container/simulate_base.hpp:1823-1881 | after popping y, every bucket is the chain of the remaining elements and no clash appears |
| HashTables.HashTable.Size | server/model/container/simulate_base.hpp:1596-1601 | `size()` is the number of stored elements |
| HashTables.HashTable.Empty | server/model/container/simulate_base.hpp:1603-1606 | `empty()` holds iff nothing is stored |
| MapsAndSets.MapHash | server/model/container/simulate_map.hpp:185-200 | the `hash_map` bucket hash is 31·h(first) + 31·h(second) modulo 2^64 |
| MapsAndSets.KeyHash | server/model/container/simulate_map.hpp:185-200 | the corrected bucket hash 31·h(first) modulo 2^64 depends on the key alone |
| MapsAndSets.SetHash | server/model/container/simulate_set.hpp:169-179 | the `hash_set` bucket hash is 131·h(x) modulo 2^64 |
| MapsAndSets.MapClash | server/model/container/simulate_map.hpp:178-200 | with the key-only hash, two pairs clash exactly when their keys are equal |
| MapsAndSets.MapKeysUnique | server/model/container/simulate_map.hpp:178-200 | hence a `hash_map` table free of clashes holds every key at most once |
| MapsAndSets.MapAbsent | server/model/container/simulate_map.hpp:217-221 | a pair is absent exactly when no stored pair has its key |
| MapsAndSets.SetAbsent | server/model/container/simulate_set.hpp:180-188 | in a `hash_set`, an element is absent exactly when it is not stored |
| MapsAndSets.HashMapDuplicateKeys | server/model/container/simulate_map.hpp:185-200 | as written, (1, 0) and (1, 1) land in different buckets, so the second is pushed beside the first, and `find` of (1, 5) misses key 1 |
| MapsAndSets.Distinct | server/model/container/simulate_map.hpp:87-93 | pushing a list in order keeps only elements that were pushed |
| MapsAndSets.DistinctUnique | server/model/container/simulate_map.hpp:87-93 | no two kept elements share a key |
| MapsAndSets.DistinctKeys | server/model/container/simulate_map.hpp:87-93 | the kept elements have exactly the keys that were pushed |
| MapsAndSets.DistinctSnoc | server/model/container/simulate_map.hpp:87-93 | one more push keeps the element exactly when no kept element has its key |
| MapsAndSets.KeptStep | server/model/container/simulate_set.hpp:72-78 | one push of a tree container adds the element to the kept set exactly when its key is new |
| MapsAndSets.TreeMap.constructor | server/model/container/simulate_map.hpp:98 | a default `tree_map` is empty |
| MapsAndSets.TreeMap.FromList | server/model/container/simulate_map.hpp:87-93 | initializer-list construction keeps the first pair of each key |
| MapsAndSets.TreeMap.Push | server/model/container/simulate_map.hpp:109 | refused when a pair with p's key is stored; otherwise p is added |
| MapsAndSets.TreeMap.Pop | server/model/container/simulate_map.hpp:111 | the pair with p's key goes, every other pair stays, and the flag returned is false |
| MapsAndSets.TreeMap.Find | server/model/container/simulate_map.hpp:113 | `find` is the tree's walk for p's key |
| MapsAndSets.TreeMap.Size | server/model/container/simulate_map.hpp:119-122 | `size()` counts the stored pairs |
| MapsAndSets.TreeMap.Empty | server/model/container/simulate_map.hpp:124 | `empty()` holds iff nothing is stored |
| MapsAndSets.TreeSet.constructor | server/model/container/simulate_set.hpp:96 | a default `tree_set` is empty |
| MapsAndSets.TreeSet.FromList | server/model/container/simulate_set.hpp:72-78 | initializer-list construction stores exactly the listed elements |
| MapsAndSets.TreeSet.Push | server/model/container/simulate_set.hpp:106 | refused exactly when x is stored; afterwards x is stored |
| MapsAndSets.TreeSet.Pop | server/model/container/simulate_set.hpp:108 | x goes and nothing else does, and the flag returned is false |
| MapsAndSets.TreeSet.Find | server/model/container/simulate_set.hpp:110 | `find` is the tree's walk for x |
| MapsAndSets.TreeSet.Size | server/model/container/simulate_set.hpp:116-119 | `size()` counts the stored elements |
| MapsAndSets.TreeSet.Empty | server/model/container/simulate_set.hpp:121 | `empty()` holds iff nothing is stored |
| MapsAndSets.HashMap.constructor | server/model/container/simulate_map.hpp:207 | a default `hash_map` is empty with capacity 10 |
| MapsAndSets.HashMap.FromList | server/model/container/simulate_map.hpp:247-253 | initializer-list construction keeps the first pair of each key, in order |
| MapsAndSets.HashMap.Push | server/model/container/simulate_map.hpp:217 | refused when a pair with p's key is stored; otherwise p goes to the end of the order |
| MapsAndSets.HashMap.Pop | server/model/container/simulate_map.hpp:219 | refused when no pair has p's key; otherwise that pair and nothing else goes |
| MapsAndSets.HashMap.Find | server/model/container/simulate_map.hpp:221 | finds a stored pair with p's key exactly when there is one |
| MapsAndSets.HashMap.Size | server/model/container/simulate_map.hpp:223-228 | `size()` counts the stored pairs |
| MapsAndSets.HashMap.Capacity | server/model/container/simulate_map.hpp:230-233 | `capacity()` is the table's |
| MapsAndSets.HashMap.Empty | server/model/container/simulate_map.hpp:235 | `empty()` holds iff nothing is stored |
| MapsAndSets.HashSet.constructor | server/model/container/simulate_set.hpp:194 | a default `hash_set` is empty with capacity 10 |
| MapsAndSets.HashSet.FromList | server/model/container/simulate_set.hpp:247-253 | initializer-list construction keeps each element once, in first-pushed order |
| MapsAndSets.HashSet.Push | server/model/container/simulate_set.hpp:207 | refused exactly when x is stored; otherwise x goes to the end of the order |
| MapsAndSets.HashSet.Pop | server/model/container/simulate_set.hpp:209 | refused exactly when x is not stored; otherwise x and nothing else goes |
| MapsAndSets.HashSet.Find | server/model/container/simulate_set.hpp:211 | x itself exactly when it is stored |
| MapsAndSets.HashSet.Size | server/model/container/simulate_set.hpp:213-222 | `size()` counts the stored elements |
| MapsAndSets.HashSet.Capacity | server/model/container/simulate_set.hpp:217 | `capacity()` is the table's |
| MapsAndSets.HashSet.Empty | server/model/container/simulate_set.hpp:215 | `empty()` holds iff nothing is stored |
| RedBlackTrees.LookupFinds | server/model/container/simulate_base.hpp:656-675 | in an ordered tree the search descent of `push`/`pop` finds y iff y is stored with key k |
| RedBlackTrees.LookupMisses | server/model/container/simulate_base.hpp:656-675 | the search fails exactly when no stored value has key k |
| RedBlackTrees.FindAsWrittenMeaning | server/model/container/simulate_base.hpp:1155-1181 | `find` as written fails exactly when every key is below k, and otherwise returns a stored value whose key is at least k |
| RedBlackTrees.FindReturnsGreater | server/model/container/simulate_base.hpp:1155-1181 | after pushing 2 then 1, `find(1)` returns the node holding 2 although 1 is stored |
| RedBlackTrees.CountIsSize | server/model/container/simulate_base.hpp:490-517 | the node count `size()` walks is the number of stored values |
| RedBlackTrees.InsElements | server/model/container/simulate_base.hpp:676-757 | the descent and fix-up of `push` add exactly v |
| RedBlackTrees.InsOrdered | server/model/container/simulate_base.hpp:676-757 | inserting a new key keeps the search order |
| RedBlackTrees.InsShape | server/model/container/simulate_base.hpp:691-758 | the fix-up keeps the black height, and a red-red edge can remain only at a red root |
| RedBlackTrees.InsertCorrect | server/model/container/simulate_base.hpp:646-759 | `push` refuses an equivalent key and leaves the tree alone; otherwise it adds exactly v, the count grows by one, and the tree stays red-black (black root, ordered, no red-red edge, equal black heights) |
| RedBlackTrees.InsertNew | server/model/container/simulate_base.hpp:670-759 | adding a new key to a red-black tree gives a red-black tree holding exactly one more value |
| RedBlackTrees.RotateLeft | server/model/container/simulate_base.hpp:306-355 | a left rotation keeps the order and the stored values |
| RedBlackTrees.RotateRight | server/model/container/simulate_base.hpp:356-400 | a right rotation keeps the order and the stored values |
| RedBlackTrees.DelMinOrder | server/model/container/simulate_base.hpp:1107-1141 | unlinking the in-order successor removes the least value and keeps the order |
| RedBlackTrees.RemoveOrder | server/model/container/simulate_base.hpp:1049-1141 | removing the node found keeps the order, and its subtrees' values remain |
| RedBlackTrees.DelOrder | server/model/container/simulate_base.hpp:1015-1152 | `pop`, in either variant, keeps the order and removes exactly the values with key k |
| RedBlackTrees.DelShape | server/model/container/simulate_base.hpp:901-1014 | with the intended repair, the removal leaves a tree whose black height is repaired or reported short |
| RedBlackTrees.PopCorrect | server/model/container/simulate_base.hpp:1015-1152 | `pop` with the intended repair keeps a red-black tree red-black and removes exactly the value with key k |
| RedBlackTrees.PopSize | server/model/container/simulate_base.hpp:1015-1152 | the count drops by one exactly when a value with key k was stored |
| RedBlackTrees.WithoutLookup | server/model/container/simulate_base.hpp:1023-1047 | removing key k removes exactly what the search finds, or nothing when it fails |
| RedBlackTrees.PushTwoOneFourThree | server/model/container/simulate_base.hpp:646-759 | pushing 2, 1, 4, 3 gives 2(1, 4(3, -)) with 3 red |
| RedBlackTrees.PopCaseTwoFault | server/model/container/simulate_base.hpp:927-939 | as written, popping 1 from 2(1, 4(3, -)) takes case 2 and leaves red 4 above red 3; the intended repair gives 3(2, 4) |
| RedBlackTrees.PushFiveTwoEightOneThree | server/model/container/simulate_base.hpp:646-759 | pushing 5, 2, 8, 1, 3 gives 5(2(1, 3), 8) with 1 and 3 red |
| RedBlackTrees.PopColourSwapFault | server/model/container/simulate_base.hpp:1107-1147 | as written, popping 2 from 5(2(1, 3), 8) swaps colours with the successor and leaves red 3 above red 1 with unequal black heights; the intended removal keeps 2's black |
| RedBlackTrees.RedBlackTree.constructor | server/model/container/simulate_base.hpp:526-529 | a default tree is empty |
| RedBlackTrees.RedBlackTree.Single | server/model/container/simulate_base.hpp:530-534 | a one-value tree is a black root |
| RedBlackTrees.RedBlackTree.Push | server/model/container/simulate_base.hpp:646-759 | `push` returns false and changes nothing for an equivalent key; otherwise it returns true, adds exactly v, grows the count by one, and the tree stays red-black |
| RedBlackTrees.RedBlackTree.Pop | server/model/container/simulate_base.hpp:1015-1152 | with the intended repair: the value with v's key goes, the tree stays red-black, the count drops by one exactly when it was stored, and the flag returned is always false |
| RedBlackTrees.RedBlackTree.Find | server/model/container/simulate_base.hpp:1155-1181 | `find` returns what FindAsWritten gives: the first node on the right spine whose key is not below v's |
| RedBlackTrees.RedBlackTree.Size | server/model/container/simulate_base.hpp:490-517 | the stack walk of `size()` counts every node |
| RedBlackTrees.RedBlackTree.Empty | server/model/container/simulate_base.hpp:1190-1193 | `empty()` holds iff nothing is stored |
| BinaryTrees.CountIsSize | server/model/container/simulate_tree.hpp:142-158 | the node count of the in-order walk is the number of stored values |
| BinaryTrees.InOrderSorted | server/model/container/simulate_tree.hpp:118-141 | in an ordered tree the in-order sequence is strictly increasing and holds exactly the stored values |
| BinaryTrees.PushCorrect | server/model/container/simulate_tree.hpp:284-326 | `push` keeps left < node < right; it refuses, changing nothing, exactly when v is stored, and otherwise adds v and nothing else |
| BinaryTrees.PushAnyTree | server/model/container/simulate_tree.hpp:284-326 | on any tree, `push` either refuses because the descent met v, changing nothing, or adds exactly one node holding v |
| BinaryTrees.RemoveMinCorrect | server/model/container/simulate_tree.hpp:327-425 | unlinking the in-order successor removes the least value and keeps the order |
| BinaryTrees.PopCorrect | server/model/container/simulate_tree.hpp:327-425 | `pop` keeps the order and removes exactly v |
| BinaryTrees.PopAbsent | server/model/container/simulate_tree.hpp:327-425 | popping a value that is not stored leaves the tree as it was |
| BinaryTrees.RemoveMinAnyTree | server/model/container/simulate_tree.hpp:327-425 | on any tree, unlinking the leftmost node removes one node and its value and nothing else |
| BinaryTrees.PopAnyTree | server/model/container/simulate_tree.hpp:327-425 | on any tree, `pop` changes nothing when its descent misses v, otherwise removes exactly one node and adds no value |
| BinaryTrees.SubtreeFinds | server/model/container/simulate_tree.hpp:436-456 | `find` succeeds exactly for stored values, at the node holding them, and returns null otherwise |
| BinaryTrees.InsertAfterCorrect | server/model/container/simulate_tree.hpp:457-472 | `insert(e, n)` fails exactly when `find(e)` does; otherwise one node holding n is added |
| BinaryTrees.InsertAfterUnordered | server/model/container/simulate_tree.hpp:457-472 | `insert` can break the order: inserting 1 after 2 puts 1 on the right |
| BinaryTrees.PushAllCorrect | server/model/container/simulate_tree.hpp:215-222 | pushing a list in turn keeps the order and stores exactly the old values plus the listed ones |
| BinaryTrees.BinaryTree.constructor | server/model/container/simulate_tree.hpp:223-227 | `binary_tree(v)` is a root holding v |
| BinaryTrees.BinaryTree.FromList | server/model/container/simulate_tree.hpp:215-222 | initializer-list construction pushes each value in turn and stores exactly the listed values |
| BinaryTrees.BinaryTree.Copy | server/model/container/simulate_tree.hpp:234-243 | copying an empty tree is the fault; otherwise the copy holds the same tree |
| BinaryTrees.BinaryTree.Push | server/model/container/simulate_tree.hpp:284-326 | on any tree, even one `insert` has left out of order, `push` is the descent Added: a refusal changes nothing and means v was met, a success adds one node holding v; an ordered tree stays ordered and refuses exactly the values it holds |
| BinaryTrees.BinaryTree.Pop | server/model/container/simulate_tree.hpp:327-425 | on any tree `pop` is the descent Removed: nothing changes when the descent misses v, otherwise one node goes and no value is added; an ordered tree stays ordered and loses exactly v |
| BinaryTrees.BinaryTree.Find | server/model/container/simulate_tree.hpp:436-456 | the loop of `find` reaches exactly the node holding v, or null |
| BinaryTrees.BinaryTree.Insert | server/model/container/simulate_tree.hpp:457-472 | fails and changes nothing when e is not found; otherwise n becomes e's right child with e's old right subtree as its left, and one node is added |
| BinaryTrees.BinaryTree.Size | server/model/container/simulate_tree.hpp:426-435 | `size()` counts every node |
| AvlTrees.LookupFinds | server/model/container/simulate_tree.hpp:1467-1486 | in an ordered tree `find(k)` returns v iff (k, v) is stored |
| AvlTrees.LookupMisses | server/model/container/simulate_tree.hpp:1467-1486 | `find(k)` returns null exactly when no stored pair has key k |
| AvlTrees.CountIsSize | server/model/container/simulate_tree.hpp:1030-1060 | the node count `size()` walks is the number of stored pairs |
| AvlTrees.PopAsWrittenAbsent | server/model/container/simulate_tree.hpp:1487-1516 | as written, `pop` of an absent key or on an empty tree changes nothing |
| AvlTrees.RotateRightLeftShape | server/model/container/simulate_tree.hpp:865-905 | `right_left_revolve` at a node two levels right-heavy with a left-heavy right child gives an AVL subtree one level lower |
| AvlTrees.RotateLeftRightShape | server/model/container/simulate_tree.hpp:906-946 | the intended `left_right_revolve` at a node two levels left-heavy with a right-heavy left child gives an AVL subtree one level lower |
| AvlTrees.InsOrder | server/model/container/simulate_tree.hpp:1269-1310 | inserting a new key keeps the keys increasing and adds exactly the pair |
| AvlTrees.InsShape | server/model/container/simulate_tree.hpp:1311-1358 | the intended fix-up of `push` leaves an AVL subtree that grew by one exactly when the loop goes on |
| AvlTrees.DelMinOrder | server/model/container/simulate_tree.hpp:1575-1616 | unlinking the in-order successor removes the least pair and keeps the order |
| AvlTrees.DelOrder | server/model/container/simulate_tree.hpp:1487-1675 | the removal keeps the order and removes exactly the pairs with key k |
| AvlTrees.DelShape | server/model/container/simulate_tree.hpp:1617-1673 | the intended fix-up of `pop` leaves an AVL subtree that shrank by one exactly when the loop goes on |
| AvlTrees.InsertCorrect | server/model/container/simulate_tree.hpp:1269-1361 | with the intended fix-up, `push` refuses a stored key and changes nothing; otherwise it adds exactly the pair, and every balance factor is the true height difference and lies in -1..1, with the keys in order |
| AvlTrees.WithoutLookup | server/model/container/simulate_tree.hpp:1487-1516 | the pairs with key k are exactly the one `find(k)` returns, or none |
| AvlTrees.PopCorrect | server/model/container/simulate_tree.hpp:1487-1675 | with the intended fix-up, `pop(k)` removes exactly the pair with key k and keeps the tree ordered and AVL |
| AvlTrees.PopSize | server/model/container/simulate_tree.hpp:1487-1675 | `pop(k)` shrinks the tree by one node exactly when `find(k)` succeeds |
| AvlTrees.PopAbsent | server/model/container/simulate_tree.hpp:1487-1516 | on an empty tree or for an absent key, `pop` changes nothing |
| AvlTrees.PushOneTwoThree | server/model/container/simulate_tree.hpp:1311-1358 | as written, pushing 1, 2, 3 leaves root 2 with stored factor -1 over equal subtrees, because the loop goes on after the rotation; the intended loop stores 0 |
| AvlTrees.PushLeftRightFactors | server/model/container/simulate_tree.hpp:906-946 | as written, pushing 5, 2, 6, 1, 3, 4 gives node 2 factor 0 and node 5 factor -1, which are not their height differences |
| AvlTrees.PushLeftRightIntended | server/model/container/simulate_tree.hpp:906-946 | the intended `left_right_revolve` on the same pushes gives node 2 factor -1 and node 5 factor 0 |
| AvlTrees.PopThenPopFaults | server/model/container/simulate_tree.hpp:1617-1673 | as written, after pushing 3, 2, 4, 1, popping 1 leaves root 3 with factor -1 over two leaves, and popping 4 then dereferences a null pointer; the intended loop leaves 3 over 2 |
| AvlTrees.BalanceTree.constructor | server/model/container/simulate_tree.hpp:1129-1132 | a default tree is empty |
| AvlTrees.BalanceTree.Single | server/model/container/simulate_tree.hpp:1133-1138 | a one-pair tree is a balanced root |
| AvlTrees.BalanceTree.Empty | server/model/container/simulate_tree.hpp:1125-1128 | `empty()` holds iff nothing is stored |
| AvlTrees.BalanceTree.Push | server/model/container/simulate_tree.hpp:1269-1361 | `push` returns false and changes nothing for a stored key; otherwise it returns true, adds exactly the pair and grows the count by one, and the tree stays ordered and AVL |
| AvlTrees.BalanceTree.Pop | server/model/container/simulate_tree.hpp:1487-1675 | the pair with key k, if any, goes and nothing else does; the tree stays ordered and AVL; an absent key changes nothing |
| AvlTrees.BalanceTree.Find | server/model/container/simulate_tree.hpp:1467-1486 | `find` returns exactly Lookup: the value stored under k, or null |
| AvlTrees.BalanceTree.Size | server/model/container/simulate_tree.hpp:1030-1060 | the stack walk of `size()` counts every node |
| Crc32.EntryGenerated | server/model/network/crypt/encryption.hpp:871-905 | every entry of the literal 256-entry table is what the reflected polynomial 0xEDB88320 generates for that byte, bit by bit |
| Crc32.Checksum | server/model/network/crypt/encryption.hpp:869-915 | the CRC is an unsigned 32-bit number |
| Crc32.Update | server/model/network/crypt/encryption.hpp:911 | one pass of the table loop on register c and byte b equals the standard's eight bit-at-a-time steps of the reflected polynomial on c xor b |
| Crc32.RegisterSnoc | server/model/network/crypt/encryption.hpp:909-912 | folding one more byte into the data folds it into the register |
| Crc32.Crc | server/model/network/crypt/encryption.hpp:906-914 | the loop from 0xFFFFFFFF folds each of the first `length` bytes into the register through the table and returns its complement; no bytes give 0 |
| Crc32.RegisterPrefix | server/model/network/crypt/encryption.hpp:909-912 | one more pass of the loop folds the next byte into the register of the prefix |
| Crc32.CheckValue | server/model/network/crypt/encryption.hpp:869-915 | the CRC-32 of the ASCII digits "123456789" is the standard check value 0xCBF43926 |
| Crc32.ChecksumOfDigits | server/model/network/crypt/encryption.hpp:869-915 | any nine bytes spelling "123456789" have CRC 0xCBF43926 |
| Envelope.WordOfLittleEndian | server/model/network/crypt/encryption.hpp:414-415 | the four length bytes written little-endian read back as the length when it fits 32 bits |
| Envelope.LittleEndianOfWord | server/model/network/crypt/encryption.hpp:436-437 | reading k bytes as a little-endian number and writing it back gives the same bytes |
| Envelope.GcmLayout | server/model/network/crypt/encryption.hpp:319-327 | the GCM envelope is 21 bytes of framing plus the IV and the cipher text with tag |
| Envelope.GcmParsedIsLayout | server/model/network/crypt/encryption.hpp:331-350 | every envelope `AESGCM_Decrypt` accepts is exactly the layout of the fields it takes out |
| Envelope.GcmRoundTrip | server/model/network/crypt/encryption.hpp:319-350 | an envelope that `AESGCM_Encrypt` lays out and that is long enough parses back to the same salt, IV, tag length and payload |
| Envelope.SealGcm | server/model/network/crypt/encryption.hpp:319-328 | the GCM envelope is `"CW"`, algorithm, salt, IV length, IV, tag length 16 and payload, and it parses back when the payload holds the tag |
| Envelope.OpenGcm | server/model/network/crypt/encryption.hpp:331-350 | the cursor walk of `AESGCM_Decrypt` rejects a short envelope, a wrong magic or algorithm, and a tag length past the end, and otherwise returns the fields |
| Envelope.MacLayout | server/model/network/crypt/encryption.hpp:408-417 | the CBC, CTR and Twofish envelope is 24 bytes of framing plus IV, MAC and cipher text |
| Envelope.MacParsedIsLayout | server/model/network/crypt/encryption.hpp:421-443 | every envelope the decrypts accept is the layout of the fields they take out, except the two magic bytes, which only CTR checks |
| Envelope.MacRoundTrip | server/model/network/crypt/encryption.hpp:408-443 | an envelope laid out by the CBC, CTR or Twofish encrypt parses back to the same fields, when the MAC length fits 32 bits and CBC or Twofish sees at least 40 bytes |
| Envelope.MagicUncheckedByCbcAndTwofish | server/model/network/crypt/encryption.hpp:421-429 | CBC and Twofish accept an envelope whose first two bytes are not "CW", and CTR refuses it |
| Envelope.CtrAcceptsShortEnvelope | server/model/network/crypt/encryption.hpp:518-538 | CTR accepts a 24-byte envelope with no IV, MAC or cipher text, and CBC and Twofish refuse it for being under 40 bytes |
| Envelope.SealMac | server/model/network/crypt/encryption.hpp:593-603 | the CBC, CTR and Twofish envelope is `"CW"`, algorithm, salt, IV length, IV, four-byte MAC length, MAC and cipher text, and it parses back |
| Envelope.OpenMac | server/model/network/crypt/encryption.hpp:421-443 | the cursor walk of the CBC, CTR and Twofish decrypts rejects a short or foreign envelope and a MAC past the end, and otherwise returns exactly the fields the envelope parser describes |
| Auxiliary.ChecksumOfCode | server/model/network/agreement/auxiliary.hpp:44-50 | exactly the values 0 to 3 name a checksum kind, each the kind declared at that position |
| Auxiliary.ChecksumCodeRoundTrip | server/model/network/agreement/auxiliary.hpp:44-50 | every checksum kind reads back from its underlying value |
| Auxiliary.CheckCode | server/model/network/agreement/auxiliary.hpp:72-95 | the CRC-32 branch is the CRC of all of the data and CUSTOM gives 0; MD5 and SHA-256 take the digest's value |
| Auxiliary.CheckCodeOfDigits | server/model/network/agreement/auxiliary.hpp:76-77 | the CRC-32 branch on "123456789" gives 0xCBF43926 |
| Auxiliary.ProtocolHeader.constructor | server/model/network/agreement/auxiliary.hpp:59-64 | a new header has version 1, checksum 0, length 0, CRC-32, the custom TCP protocol and no extra headers |
| Auxiliary.ProtocolHeader.GetHeader | server/model/network/agreement/auxiliary.hpp:132-138 | `get_header` finds a value exactly when the key is stored, and it is the stored value |
| Auxiliary.ProtocolHeader.SetHeader | server/model/network/agreement/auxiliary.hpp:123 | `set_header` makes the key map to the value, leaves every other key and field alone |
| Auxiliary.ProtocolHeader.RemoveHeader | server/model/network/agreement/auxiliary.hpp:120 | `remove_header` returns true iff the key was stored, and afterwards it is not; nothing else changes |
| Auxiliary.ProtocolHeader.ClearHeaders | server/model/network/agreement/auxiliary.hpp:117 | `clear_headers` leaves no key and changes no other field |
| Auxiliary.ProtocolHeader.VerifyIntegrity | server/model/network/agreement/auxiliary.hpp:168-174 | a body verifies only when its length is the stored one; with CUSTOM it verifies iff the length matches and the stored checksum is 0 |
| Auxiliary.ProtocolHeader.CalculateAndSetChecksum | server/model/network/agreement/auxiliary.hpp:157-162 | the header records the body's length and check code and returns the code, after which the same body verifies |
| HeaderText.FindCrlf | server/model/network/agreement/protocol.hpp:774 | `find("\r\n", from)` returns the first line end at or after from, or nothing when there is none |
| HeaderText.FindBlank | server/model/network/agreement/protocol.hpp:381 | `find("\r\n\r\n")` returns the first empty line, or nothing when there is none |
| HeaderText.IndexOf | server/model/network/agreement/protocol.hpp:854 | `find(':')` returns the first colon of the line, or nothing when it has none |
| HeaderText.Tokens | server/model/network/agreement/protocol.hpp:782-790 | the first-line loop keeps only non-empty, space-free tokens |
| HeaderText.TokensOfJoined | server/model/network/agreement/protocol.hpp:782-790 | words written with single spaces between them split back into the same words |
| HeaderText.TokensAppend | server/model/network/agreement/protocol.hpp:782-790 | text ending in a space splits independently of what follows |
| HeaderText.FirstTen | server/model/network/agreement/protocol.hpp:786-793 | the parser keeps at most ten tokens, and it keeps six exactly when the line has six |
| HeaderText.ParseInt64 | server/model/network/agreement/protocol.hpp:877-878 | a timestamp that parses lies in the int64 range |
| HeaderText.ParseInt64OfString | server/model/network/agreement/protocol.hpp:877-878 | a non-negative int64 printed in decimal reads back as itself |
| HeaderText.TrimLeft | server/model/network/agreement/protocol.hpp:823 | trimming on the left leaves no space or tab first |
| HeaderText.TrimRight | server/model/network/agreement/protocol.hpp:829-830 | trimming on the right leaves no space or tab last |
| HeaderText.TrimOfTrimmed | server/model/network/agreement/protocol.hpp:818-832 | `safe_trim` leaves text without blanks at its ends alone, and strips the space that `to_string` writes after the colon |
| HeaderText.ReaderFor | server/model/network/agreement/protocol.hpp:854-893 | the reader of both parsers handles every line as the single-line step for their special key and clock |
| HeaderText.HeaderLinesKeeps | server/model/network/agreement/protocol.hpp:838-895 | the header loop keeps every invariant of the collected fields that each line's reading keeps |
| HeaderText.HeaderLinesStep | server/model/network/agreement/protocol.hpp:838-895 | for one non-empty short line the loop hands that line to the reader and goes on after its line end, or stops with its rejection |
| HeaderText.HeaderLinesOfText | server/model/network/agreement/protocol.hpp:838-895 | over rendered lines within the 100-line bound the loop is the reader applied line after line |
| HeaderText.HeaderLinesAtEnd | server/model/network/agreement/protocol.hpp:838 | at the end of the data the loop stops with what it has |
| HeaderText.Store | server/model/network/agreement/protocol.hpp:864-892 | a stored pair has a key of 1 to 256 characters and a value of at most 8192; a stored timestamp lies between 0 and a day after now; the map gains at most the one key |
| HeaderText.LineStep | server/model/network/agreement/protocol.hpp:854-893 | a line without a colon, or with a colon first, is skipped and changes nothing |
| HeaderText.LineStepOfPair | server/model/network/agreement/protocol.hpp:854-867 | reading a `key: value` line as `to_string` writes it stores that key and value |
| HeaderText.StepsOfOrdinary | server/model/network/agreement/protocol.hpp:887-891 | ordinary header lines, up to the 90 the map may hold, are all stored |
| HeaderText.InsertedEntries | server/model/network/agreement/protocol.hpp:891 | storing a map's entries under its keys rebuilds exactly those entries |
| HeaderText.StdLessIrreflexive | server/model/network/agreement/protocol.hpp:62 | `std::string` ordering is irreflexive |
| HeaderText.StdLessTransitive | server/model/network/agreement/protocol.hpp:62 | `std::string` ordering is transitive |
| HeaderText.StdLessTotal | server/model/network/agreement/protocol.hpp:62 | `std::string` ordering is total on distinct strings |
| HeaderText.LeastExists | server/model/network/agreement/protocol.hpp:62 | a non-empty key set has a least key |
| HeaderText.SortedKeys | server/model/network/agreement/protocol.hpp:56-62 | `std::sort` leaves the keys of the map, each once, in strictly ascending order |
| HeaderText.SortedKeysOfLeast | server/model/network/agreement/protocol.hpp:62 | the sorted keys start with the least key and go on with the rest sorted |
| HeaderText.FindBlankOfLines | server/model/network/agreement/protocol.hpp:107-113 | the empty line that ends a rendered header block is the first one in it, whatever the body holds |
| HeaderText.MapLines | server/model/network/agreement/protocol.hpp:63-70 | one `key: value` line per header |
| HeaderText.TailLinesGood | server/model/network/agreement/protocol.hpp:107-112 | the lines `to_string` writes after the first are well formed and at most 92 |
| HeaderText.SpecialStep | server/model/network/agreement/protocol.hpp:869-874 | the `User-Agent` or `Server` line is written only when non-empty and reads back as that value |
| HeaderText.TimestampStep | server/model/network/agreement/protocol.hpp:875-886 | the `Timestamp` line reads back as the written milliseconds when they lie within a day of the reader's clock |
| HeaderText.MapStep | server/model/network/agreement/protocol.hpp:887-891 | the sorted header lines read back as the header map |
| HeaderText.InsertedAllEntries | server/model/network/agreement/protocol.hpp:56-70 | storing every entry of a map in key order into an empty map rebuilds it |
| HeaderText.TailRoundTrip | server/model/network/agreement/protocol.hpp:838-895 | reading the lines after the first gives back the special value, the timestamp and the header map |
| Protocol.ParseChecksumType | server/model/network/agreement/protocol.hpp:804-814 | the type token is accepted exactly when it is a uint8 no larger than SHA256's value, and then names that kind; CUSTOM is refused |
| Protocol.ParseRequestLine | server/model/network/agreement/protocol.hpp:793-814 | an accepted request line has six tokens, a method of 1 to 10 and a target of 1 to 2048 characters, a checksum type other than CUSTOM and a 32-bit length |
| Protocol.ParseStatusLine | server/model/network/agreement/protocol.hpp:956-982 | an accepted status line has six tokens, a code from 100 to 599, a message of 1 to 256 characters, a checksum type other than CUSTOM and a 32-bit length |
| Protocol.HeaderLinesBounded | server/model/network/agreement/protocol.hpp:838-895 | whatever the lines, what the loop collects respects the key, value, agent, timestamp and 90-header limits |
| Protocol.ParseRequestHeader | server/model/network/agreement/protocol.hpp:749-909 | data under 10 characters or without a line end is refused; an accepted header meets every limit the parser checks |
| Protocol.ParseResponseHeader | server/model/network/agreement/protocol.hpp:911-1076 | the same for the response header, with `Server` as the special key |
| Protocol.NumberRoundTrip | server/model/network/agreement/protocol.hpp:765-771 | a number written in decimal reads back as itself when it fits the field |
| Protocol.ChecksumTypeRoundTrip | server/model/network/agreement/protocol.hpp:804-814 | every checksum type but CUSTOM is written as a number that reads back as that type |
| Protocol.RequestLineRoundTrip | server/model/network/agreement/protocol.hpp:793-814 | a well-formed request line reads back as the fields it was written from |
| Protocol.StatusLineRoundTrip | server/model/network/agreement/protocol.hpp:956-982 | a well-formed status line reads back as the fields it was written from |
| Protocol.RequestHeaderRoundTrip | server/model/network/agreement/protocol.hpp:749-909 | a well-formed request header, written by `to_string` and read by `from_string`, gives the same fields |
| Protocol.ResponseHeaderRoundTrip | server/model/network/agreement/protocol.hpp:911-1076 | a well-formed response header, written and read back, gives the same fields |
| Protocol.RequestRefusedByFirstLine | server/model/network/agreement/protocol.hpp:793-812 | a request whose first line is refused is refused, whatever follows |
| Protocol.ResponseRefusedByFirstLine | server/model/network/agreement/protocol.hpp:956-980 | a response whose first line is refused is refused, whatever follows |
| Protocol.CustomChecksumNotReadBack | server/model/network/agreement/protocol.hpp:810-812 | `to_string` writes the CUSTOM type as 3, which `from_string` refuses, so such a header does not read back |
| Protocol.LongContentNotReadBack | server/model/network/agreement/protocol.hpp:804-808 | the 64-bit content length is read back into 32 bits, so a header for a body of 2^32 bytes or more does not read back |
| Protocol.SpacedStatusMessageNotReadBack | server/model/network/agreement/protocol.hpp:956-957 | a two-word status message makes seven tokens, which `from_string` refuses |
| Protocol.TokenizeFirstLine | server/model/network/agreement/protocol.hpp:779-790 | the character loop over the first line keeps exactly the first ten non-empty space-separated tokens |
| Protocol.ReadLine | server/model/network/agreement/protocol.hpp:840-894 | one turn of the header loop stops, rejects or moves on exactly as the header-loop function does |
| Protocol.ReadHeaderLines | server/model/network/agreement/protocol.hpp:835-895 | the header loop returns exactly what the header-loop function describes |
| Protocol.SerializeHeaders | server/model/network/agreement/protocol.hpp:56-71 | `_serialize_headers_to_string` writes one `key: value` line per entry in ascending key order |
| Protocol.ReadRequestHeader | server/model/network/agreement/protocol.hpp:749-895 | the parse into temporaries returns exactly the request-header parse |
| Protocol.ReadResponseHeader | server/model/network/agreement/protocol.hpp:911-1064 | the parse into temporaries returns exactly the response-header parse |
| Protocol.RequestHeader.constructor | server/model/network/agreement/protocol.hpp:73-77 | a new request header has empty method, target and agent, the shared defaults and the current time |
| Protocol.RequestHeader.FromString | server/model/network/agreement/protocol.hpp:749-909 | on success every field is the parse of the data; on failure no field changes |
| Protocol.RequestHeader.ToString | server/model/network/agreement/protocol.hpp:95-115 | the text is the rendering of the current fields |
| Protocol.RenderRequest | server/model/network/agreement/protocol.hpp:95-115 | the rendered request header ends with CRLF CRLF, the empty line that closes the block |
| Protocol.RenderResponse | server/model/network/agreement/protocol.hpp:215-231 | the rendered response header ends with CRLF CRLF, the empty line that closes the block |
| Protocol.ResponseHeader.constructor | server/model/network/agreement/protocol.hpp:198-202 | a new response header has status 200 "OK", no server, the shared defaults and the current time |
| Protocol.ResponseHeader.FromString | server/model/network/agreement/protocol.hpp:911-1076 | on success every field is the parse of the data; on failure no field changes |
| Protocol.ResponseHeader.ToString | server/model/network/agreement/protocol.hpp:215-231 | the text is the rendering of the current fields |
| Protocol.SplitMessage | server/model/network/agreement/protocol.hpp:379-393 | a message without an empty line is refused, and the body is what follows the first empty line |
| Protocol.SplitMessageAt | server/model/network/agreement/protocol.hpp:381-393 | once the empty line is found, the header parse decides, and the body is the rest after it |
| Protocol.RequestMessageRoundTrip | server/model/network/agreement/protocol.hpp:358-396 | a well-formed request header followed by any body, even one holding an empty line, splits back into that header and that body |
| Protocol.ResponseMessageRoundTrip | server/model/network/agreement/protocol.hpp:602-646 | the same for a response |
| Protocol.Request.constructor | server/model/network/agreement/protocol.hpp:277-290 | a new request has a default header, an empty body and no cache |
| Protocol.Request.SetMessage | server/model/network/agreement/protocol.hpp:343-353 | `set_message` replaces the body and drops the cache |
| Protocol.Request.MutableHeader | server/model/network/agreement/protocol.hpp:335-339 | the non-const `header()` drops the cache |
| Protocol.Request.VerifyIntegrity | server/model/network/agreement/protocol.hpp:439-442 | the body verifies iff it has the recorded length and check code |
| Protocol.Request.ToString | server/model/network/agreement/protocol.hpp:358-373 | the result is always the rendering of the current header plus the body; a stale cache first records the body's checksum and length, after which the body verifies |
| Protocol.Request.FromString | server/model/network/agreement/protocol.hpp:379-396 | a message whose header does not parse changes nothing; otherwise header and body are replaced, the cache is dropped and the result says whether the body verifies |
| Protocol.Response.constructor | server/model/network/agreement/protocol.hpp:481-496 | a new response has a default header, an empty body and no cache |
| Protocol.Response.SetMessage | server/model/network/agreement/protocol.hpp:558-568 | `set_message` replaces the body and drops the cache |
| Protocol.Response.MutableHeader | server/model/network/agreement/protocol.hpp:550-554 | the non-const `header()` drops the cache |
| Protocol.Response.VerifyIntegrity | server/model/network/agreement/protocol.hpp:686-689 | the body verifies iff it has the recorded length and check code |
| Protocol.Response.ToString | server/model/network/agreement/protocol.hpp:602-618 | the result is always the rendering of the current header plus the body, and the body then verifies |
| Protocol.Response.FromString | server/model/network/agreement/protocol.hpp:625-646 | a message whose header does not parse changes nothing; otherwise header and body are replaced and the result says whether the body verifies |
| AnnularQueues.Slot | galgameserver/model/concurrent/concurrent_annular_queue.hpp:186-190 | the slot k places on is inside the ring |
| AnnularQueues.NextSlot | galgameserver/model/concurrent/concurrent_annular_queue.hpp:186-190 | `(i + 1) % size` steps to the next slot of the ring |
| AnnularQueues.SlotsApart | galgameserver/model/concurrent/concurrent_annular_queue.hpp:268-271 | within one lap different offsets reach different slots |
| AnnularQueues.Window | galgameserver/model/concurrent/concurrent_annular_queue.hpp:262-274 | the stored elements are the cnt slots from consume on, wrapping round |
| AnnularQueues.WindowPush | galgameserver/model/concurrent/concurrent_annular_queue.hpp:186-188 | writing the produce slot of a queue that is not full appends the element and keeps the others |
| AnnularQueues.WindowPop | galgameserver/model/concurrent/concurrent_annular_queue.hpp:205-207 | reading the consume slot and stepping on removes exactly the front element |
| AnnularQueues.AnnularQueue.constructor | galgameserver/model/concurrent/concurrent_annular_queue.hpp:62-65 | a new queue has capacity cap, or 1 for 0, no elements and every slot free |
| AnnularQueues.AnnularQueue.Capacity | galgameserver/model/concurrent/concurrent_annular_queue.hpp:72 | the capacity is the number of slots |
| AnnularQueues.AnnularQueue.Size | galgameserver/model/concurrent/concurrent_annular_queue.hpp:75-79 | the size is the number of stored elements |
| AnnularQueues.AnnularQueue.Empty | galgameserver/model/concurrent/concurrent_annular_queue.hpp:82 | `empty()` iff nothing is stored |
| AnnularQueues.AnnularQueue.Full | galgameserver/model/concurrent/concurrent_annular_queue.hpp:85 | `full()` iff as many elements as slots are stored |
| AnnularQueues.AnnularQueue.TryPushBack | galgameserver/model/concurrent/concurrent_annular_queue.hpp:180-192 | the push fails iff no free permit is left and then changes nothing; otherwise the element goes at the back, and in a consistent queue it fails exactly when the queue is full |
| AnnularQueues.AnnularQueue.TryPopFront | galgameserver/model/concurrent/concurrent_annular_queue.hpp:199-211 | the pop gives nothing iff the queue is empty; otherwise it returns the front element and removes exactly it |
| AnnularQueues.AnnularQueue.Snapshot | galgameserver/model/concurrent/concurrent_annular_queue.hpp:262-274 | the walk of cnt slots from consume returns the stored elements in FIFO order |
| AnnularQueues.AnnularQueue.ClearAsWritten | galgameserver/model/concurrent/concurrent_annular_queue.hpp:277-285 | as written, `clear` empties the ring but adds capacity permits to the free ones it still has |
| AnnularQueues.AnnularQueue.Clear | galgameserver/model/concurrent/concurrent_annular_queue.hpp:277-285 | the intended `clear` leaves an empty, consistent queue with exactly capacity free slots |
| AnnularQueues.ClearThenOverfill | galgameserver/model/concurrent/concurrent_annular_queue.hpp:277-285 | as written, after a push and a `clear` on a one-slot queue, two pushes both succeed and the size reaches 2 |
| AnnularQueues.ClearThenPushTwice | galgameserver/model/concurrent/concurrent_annular_queue.hpp:277-285 | with the intended `clear`, the second of those pushes is refused and the size stays 1 |
| Units.NextFromPendingOnly | server/model/sched/unit.hpp:48-79 | only a pending unit can be started, cancelled or timed out; every event but starting lands in a terminal state; a terminal unit is moved only by completion or failure |
| Units.CoverageName | server/model/sched/unit.hpp:110-117 | a given name is kept; an empty one becomes "task_" followed by the identifier in decimal |
| Units.CoverageNamesDiffer | server/model/sched/unit.hpp:110-117 | unnamed units with different identifiers get different names |
| Units.Unit.constructor | server/model/sched/unit.hpp:143-148 | a new unit is pending, with the given identifier, its name as above, and the level's value as priority |
| Units.Unit.MarkRunning | server/model/sched/unit.hpp:48-57 | `mark_running` succeeds iff the unit was pending and then makes it running; otherwise nothing changes |
| Units.Unit.MarkCompleted | server/model/sched/unit.hpp:62-68 | `mark_completed` stores completed whatever the state was |
| Units.Unit.MarkFailed | server/model/sched/unit.hpp:73-79 | `mark_failed` stores failed whatever the state was |
| Units.Unit.Cancel | server/model/sched/unit.hpp:206-216 | `cancel` succeeds iff the unit was pending and then makes it cancelled; otherwise nothing changes |
| Units.Unit.MarkTimeout | server/model/sched/unit.hpp:243-253 | `mark_timeout` succeeds iff the unit was pending and then makes it timed out; otherwise nothing changes |
| Units.Unit.Execute | server/model/sched/unit.hpp:167-189 | `execute` throws and changes nothing unless the unit was pending; then it completes when the function returns and fails, passing the error on, when it throws |
| Units.Unit.Finished | server/model/sched/unit.hpp:391-401 | what `wait` waits for: a state other than pending and running |
| Units.Unit.SetPriority | server/model/sched/unit.hpp:277-289 | `set_priority` stores the value and leaves the state alone |
| Units.Unit.Before | server/model/sched/unit.hpp:422-430 | units compare by priority |
| Units.PendingOf | server/model/sched/unit.hpp:786-794 | the pending list holds only non-terminal units and every non-null, non-terminal dependency |
| Units.SatisfiedNonePending | server/model/sched/unit.hpp:742-797 | a list whose dependencies are all completed has nothing pending |
| Units.RemoveIf | server/model/sched/unit.hpp:710-711 | `std::remove_if` keeps exactly the elements the predicate rejects |
| Units.KeptAsWritten | server/model/sched/unit.hpp:704-711 | as written, the constructor's predicate is true for non-null pointers, so only null entries are kept |
| Units.Kept | server/model/sched/unit.hpp:699-713 | the intended list holds exactly the non-null dependencies given |
| Units.AsWrittenIgnoresDependencies | server/model/sched/unit.hpp:699-713 | as written, a unit built on real dependencies keeps none and counts as satisfied whatever state they are in |
| Units.RemoveIfAll | server/model/sched/unit.hpp:710-711 | `remove_if` with a predicate true of every element leaves nothing |
| Units.KeptSatisfied | server/model/sched/unit.hpp:742-775 | with the nulls dropped instead, the unit is satisfied iff every dependency it was given is completed |
| Units.Reliance.constructor | server/model/sched/unit.hpp:699-713 | the list constructor, corrected: it keeps exactly the non-null dependencies (the code keeps the nulls, see Findings) |
| Units.Reliance.FromListAsWritten | server/model/sched/unit.hpp:699-713 | the list constructor as written: the kept list is the `remove_if` of the non-null entries, so only nulls remain |
| Units.Reliance.Single | server/model/sched/unit.hpp:715-720 | the single-dependency constructor keeps the pointer as given, even a null one |
| Units.Reliance.AddDependency | server/model/sched/unit.hpp:726-736 | `add_dependency` appends a non-null dependency while the unit is pending and otherwise changes nothing |
| Units.Reliance.AreDependenciesSatisfied | server/model/sched/unit.hpp:763-774 | the `all_of` loop returns true iff every entry is non-null and completed |
| Units.Reliance.GetPendingDependencies | server/model/sched/unit.hpp:781-797 | `copy_if` returns the non-null, non-terminal dependencies in list order |
| Units.Reliance.DependencyCount | server/model/sched/unit.hpp:803-807 | the count is the length of the list |
| Integration.StatusOfCode | server/model/sched/integration.hpp:118-126 | exactly the values 0 to 5 name a task state, each the state declared with that value |
| Integration.StatusCodeRoundTrip | server/model/sched/integration.hpp:118-126 | every state reads back from its underlying value |
| Integration.TerminalStates | server/model/sched/integration.hpp:118-126 | the terminal states are exactly those other than pending and running |
| Integration.StatusNames | server/model/sched/integration.hpp:191-203 | a value prints "unknown" exactly when no state has it, and no two states print the same name |
| Integration.LevelOf | server/model/sched/integration.hpp:129-137 | a priority value names a level exactly when it is one of the six declared values, and then the level with that value |
| Integration.LevelRoundTrip | server/model/sched/integration.hpp:129-137 | every level reads back from its value |
| Integration.LevelNameOfOther | server/model/sched/integration.hpp:205-217 | a value without a level prints as its own decimal text, sign included, which reads back as that value |
| Integration.LevelNameInjective | server/model/sched/integration.hpp:205-217 | different priority values never print the same |
| Integration.DefaultPoolConfig | server/model/sched/integration.hpp:615-623 | the default pool allows 1 to 8 threads, with 4 core and 4 initial |
| Integration.Validate | server/model/sched/integration.hpp:647-651 | a configuration is valid iff it allows at least one thread and both the initial and the core count lie between the minimum and the maximum |
| Integration.DefaultPoolConfigValid | server/model/sched/integration.hpp:615-651 | the default configuration is valid |
| Ranks.Enqueue | galgameserver/model/sched/rank.hpp:270-325 | a push on a closed queue or of a null pointer is refused and changes nothing; below capacity (or with capacity 0) the element is added; any push that does not succeed leaves the queue as it was |
| Ranks.EnqueueAtCapacity | galgameserver/model/sched/rank.hpp:284-317 | at capacity, drop refuses, exception throws, block waits, and overwrite removes the last element and adds the new one, keeping the size; below capacity the queue grows by one |
| Ranks.EnqueueBounded | galgameserver/model/sched/rank.hpp:270-317 | a push never takes a bounded queue past its capacity |
| Ranks.PushEach | galgameserver/model/sched/rank.hpp:341-349 | the loop over a batch adds at most one success per pointer to the running count |
| Ranks.PushBatch | galgameserver/model/sched/rank.hpp:336-350 | a closed queue takes none and an empty batch throws; otherwise the count is at most the batch size |
| Ranks.PushEachBounded | galgameserver/model/sched/rank.hpp:336-350 | a batch of pushes keeps a bounded queue bounded |
| Ranks.TakeFront | galgameserver/model/sched/rank.hpp:377-382 | `pop_batch` takes min(count, size) elements from the front, and they and the rest make up the queue |
| Ranks.InsertByKey | galgameserver/model/sched/rank.hpp:495 | `multiset::insert` adds exactly the one element |
| Ranks.InsertPosSplits | galgameserver/model/sched/rank.hpp:470-479 | in an ascending queue, the elements before the insert position have priority at most the new one's and the rest above it |
| Ranks.InsertByKeyPlace | galgameserver/model/sched/rank.hpp:470-479 | the insert keeps the queue ascending by priority and puts the element after all of equal priority |
| Ranks.EnqueueAscending | galgameserver/model/sched/rank.hpp:486-538 | a push onto the priority queue keeps it ascending, the overwrite of the highest-priority element included |
| Ranks.FrontIsLowest | galgameserver/model/sched/rank.hpp:617-629 | the front of an ascending queue has the lowest priority of all |
| Ranks.Add | galgameserver/model/sched/rank.hpp:277-283 | one element is put in, by arrival or by priority |
| Ranks.StandardRank.constructor | galgameserver/model/sched/rank.hpp:265 | a new FIFO queue is empty, open, with the given capacity |
| Ranks.StandardRank.Strategy | galgameserver/model/sched/rank.hpp:444-447 | the FIFO queue reports fifo |
| Ranks.StandardRank.Push | galgameserver/model/sched/rank.hpp:320-325 | `push` decides as the enqueue rule says, in arrival order, and keeps a bounded queue bounded |
| Ranks.StandardRank.PushBefore | galgameserver/model/sched/rank.hpp:326-335 | a push at or after its deadline is refused and changes nothing; before it, or without one, it is an ordinary push |
| Ranks.StandardRank.PushAll | galgameserver/model/sched/rank.hpp:336-350 | `push_batch` pushes each pointer in turn as the batch rule says |
| Ranks.StandardRank.TryPop | galgameserver/model/sched/rank.hpp:391-401 | `try_pop` gives nothing from an empty queue, and otherwise removes and returns the front |
| Ranks.StandardRank.Pop | galgameserver/model/sched/rank.hpp:351-364 | `pop` returns the front; on an empty queue it returns nothing when closed and waits when open |
| Ranks.StandardRank.PopBatch | galgameserver/model/sched/rank.hpp:365-390 | `pop_batch` returns the first min(count, size) elements in order; on an empty queue nothing when closed, a wait when open |
| Ranks.StandardRank.Size | galgameserver/model/sched/rank.hpp:421-425 | the size is the number of queued elements |
| Ranks.StandardRank.Clear | galgameserver/model/sched/rank.hpp:431-437 | `clear` empties the queue, reopens it and makes it unbounded |
| Ranks.StandardRank.Close | galgameserver/model/sched/rank.hpp:438-443 | `close` refuses later pushes and keeps the elements |
| Ranks.StandardRank.SetMaxSize | galgameserver/model/sched/rank.hpp:227-231 | `set_max_size` stores the capacity and returns true |
| Ranks.PriorityRank.constructor | galgameserver/model/sched/rank.hpp:465 | a new priority queue is empty, open, with the given capacity and comparator |
| Ranks.PriorityRank.Strategy | galgameserver/model/sched/rank.hpp:675-678 | the priority queue reports priority |
| Ranks.PriorityRank.Push | galgameserver/model/sched/rank.hpp:486-545 | `push` decides as the enqueue rule says, inserting by priority, and keeps the queue ascending and bounded |
| Ranks.PriorityRank.PushAll | galgameserver/model/sched/rank.hpp:556-570 | `push_batch` pushes each pointer in turn, by priority |
| Ranks.PriorityRank.TryPop | galgameserver/model/sched/rank.hpp:617-629 | `try_pop` removes and returns the element of lowest priority, or nothing from an empty queue |
| Ranks.PriorityRank.Pop | galgameserver/model/sched/rank.hpp:571-589 | `pop` returns the lowest-priority element; on an empty queue nothing when closed, a wait when open |
| Ranks.PriorityRank.PopBatch | galgameserver/model/sched/rank.hpp:590-616 | `pop_batch` returns the min(count, size) lowest-priority elements in order |
| Ranks.PriorityRank.Size | galgameserver/model/sched/rank.hpp:651-655 | the size is the number of queued elements |
| Ranks.PriorityRank.Clear | galgameserver/model/sched/rank.hpp:661-667 | `clear` empties the queue, reopens it and makes it unbounded |
| Ranks.PriorityRank.Close | galgameserver/model/sched/rank.hpp:668-674 | `close` refuses later pushes, keeps the elements and, unlike the FIFO queue, resets the capacity to 0 |
| Ranks.MakeRank | galgameserver/model/sched/rank.hpp:1006-1019 | fifo gives the standard queue, priority the priority queue and delay the deferred queue, each reporting that strategy; any other strategy gives the standard queue |
| Forwarder.FirstNonBlank | server/model/network/business/forwarder.hpp:350 | `find_first_not_of(" \t")`: every char before the result is blank, and the char at it is not |
| Forwarder.EndNonBlank | server/model/network/business/forwarder.hpp:352-353 | one past `find_last_not_of(" \t")`: every char from the result on is blank, and the one before it is not |
| Forwarder.Trim | server/model/network/business/forwarder.hpp:349-353 | the trim never lengthens the value |
| Forwarder.TrimUntouched | server/model/network/business/forwarder.hpp:349-353 | a value with no blank at either end is left as it is |
| Forwarder.TrimStrips | server/model/network/business/forwarder.hpp:349-353 | a value that is not all blank loses exactly its blanks at both ends, and what remains starts and ends with a non-blank |
| Forwarder.DigitRun | server/model/network/business/forwarder.hpp:375 | the digit run `std::stoi` reads is all digits and is followed by a non-digit or the end |
| Forwarder.SkipSpace | server/model/network/business/forwarder.hpp:375 | the white space `std::stoi` skips is a prefix and what remains starts with a non-space |
| Forwarder.Stoi | server/model/network/business/forwarder.hpp:375 | a value `std::stoi` returns is within the range of int |
| Forwarder.StoiOfDigitRun | server/model/network/business/forwarder.hpp:375 | `std::stoi` of a text starting with a digit is the value of its leading digit run |
| Forwarder.StoiOfNumber | server/model/network/business/forwarder.hpp:375 | `std::stoi` reads a number's decimal text back, whatever non-digit text follows |
| Forwarder.StoiOfNegative | server/model/network/business/forwarder.hpp:375 | `std::stoi` reads a negative number's text back |
| Forwarder.ToWord16 | server/model/network/business/forwarder.hpp:375 | `static_cast<std::uint16_t>` keeps a value already in range |
| Forwarder.PortOf | server/model/network/business/forwarder.hpp:370-378 | a port is present exactly when `std::stoi` does not throw |
| Forwarder.PortWraps | server/model/network/business/forwarder.hpp:375 | a port number above 65535 is not refused but wrapped modulo 2^16 |
| Forwarder.NegativePortWraps | server/model/network/business/forwarder.hpp:375 | a negative port is wrapped modulo 2^16 too |
| Forwarder.Find | server/model/network/business/forwarder.hpp:372 | `std::string::find`: the first index holding the char, none exactly when the char is absent |
| Forwarder.FindAt | server/model/network/business/forwarder.hpp:372 | find stops at the first occurrence |
| Forwarder.ParseHostHeader | server/model/network/business/forwarder.hpp:346-381 | the returned name has no upper-case letter |
| Forwarder.ParseNameAndPort | server/model/network/business/forwarder.hpp:346-381 | "name:port" parses back to the lower-cased name and the port |
| Forwarder.ParseNameAlone | server/model/network/business/forwarder.hpp:346-381 | a name without a port parses to the lower-cased name and no port |
| Forwarder.ParseBracketedAndPort | server/model/network/business/forwarder.hpp:355-369 | "[name]:port" parses back to the lower-cased bracketed name and the port |
| Forwarder.Range | server/model/network/business/forwarder.hpp:391 | `equal_range` holds exactly the entries listed under the domain |
| Forwarder.MatchOf | server/model/network/business/forwarder.hpp:389-400 | `match_upstream` finds nothing exactly when the domain has no entry, and otherwise returns an entry listed under that domain |
| Forwarder.WithPort | server/model/network/business/forwarder.hpp:395-397 | the scan finds an entry of the requested port exactly when one is listed |
| Forwarder.MatchOfSpec | server/model/network/business/forwarder.hpp:389-400 | `match_upstream` returns an entry with the requested port when one is listed under the domain; without a port, the domain's first entry in iteration order |
| Forwarder.MakeErrorResponse | server/model/network/business/forwarder.hpp:621-630 | an error response has the given status, reason and body, type text/plain and Content-Length the body's size |
| Forwarder.HostIfMissing | server/model/network/business/forwarder.hpp:425-437 | a present Host header is kept and a missing one is always set |
| Forwarder.HostIfMissingParses | server/model/network/business/forwarder.hpp:425-437 | a filled-in Host header parses back to the upstream's domain and its port, the default port when omitted |
| Forwarder.RouteOfSpec | server/model/network/business/forwarder.hpp:258-268 | without a Host header a request gets 502; with one it gets 403 exactly when no entry is listed under the parsed name, and otherwise goes to an entry of that name |
| Forwarder.RouteOf | server/model/network/business/forwarder.hpp:258-268 | `forward_sync` either forwards to a listed entry or refuses with 403 or 502 |
| Forwarder.ForwardedKeepsHost | server/model/network/business/forwarder.hpp:425-437 | the Host fallback never changes a request that is forwarded |
| Forwarder.Transponder.constructor | server/model/network/business/forwarder.hpp:138 | a new forwarder lists no upstream |
| Forwarder.Transponder.AddUpstream | server/model/network/business/forwarder.hpp:138-162 | `add_upstream` appends one entry; an empty host becomes the first resolved address, else the domain |
| Forwarder.Transponder.RemoveUpstream | server/model/network/business/forwarder.hpp:186-194 | `remove_upstream` leaves exactly the entries not listed under the domain, in their order and multiplicity, after which the domain matches nothing |
| Forwarder.Without | server/model/network/business/forwarder.hpp:186-194 | what `erase(domain)` leaves holds exactly the entries not listed under the domain |
| Forwarder.RangeWithoutSplit | server/model/network/business/forwarder.hpp:186-194 | every entry is either in the domain's `equal_range` or left by `erase(domain)`, never both and never lost |
| Forwarder.Transponder.MatchUpstream | server/model/network/business/forwarder.hpp:389-400 | the scan returns what the match rule says |
| Forwarder.Transponder.ForwardSync | server/model/network/business/forwarder.hpp:258-273 | `forward_sync` routes as the routing rule says and sends a forwarded request with its own Host header |
| StaticServer.LastIndex | galgameserver/server.hpp:122 | `rfind`: the last index holding the char, none exactly when the char is absent |
| StaticServer.LastIndexAt | galgameserver/server.hpp:122 | rfind stops at the last occurrence |
| StaticServer.MimeType | galgameserver/server.hpp:120-130 | the type is text/plain or a listed type, and text/plain for a path without a dot |
| StaticServer.MimeTypeByExtension | galgameserver/server.hpp:120-130 | the type of "stem.ext" is the type listed for ext, or text/plain, whatever the stem holds |
| StaticServer.ExtensionsLowerCase | galgameserver/server.hpp:75-99 | no listed extension has an upper-case letter |
| StaticServer.MimeTypeCaseSensitive | galgameserver/server.hpp:120-130 | an extension with an upper-case letter is served as text/plain |
| StaticServer.HandlingOf | galgameserver/server.hpp:198-211 | a target is the health check exactly when it is "/api/health" |
| StaticServer.HandlingOfRooted | galgameserver/server.hpp:205-211 | a rooted target is served from the path after its slash, and "/" from index.html |
| StaticServer.IndexTargets | galgameserver/server.hpp:205-211 | among targets with at most one leading slash, exactly "/", "/index.html" and "index.html" serve index.html |
| StaticServer.PageResponse | galgameserver/server.hpp:181-183 | a page response carries the given status, type and body, and Content-Length the body's size |
| StaticServer.NotFound | galgameserver/server.hpp:239-249 | `make_404_response`: 404, HTML, the cached 404 page |
| StaticServer.ServerError | galgameserver/server.hpp:256-266 | `make_500_response`: 500, HTML, the cached 500 page |
| StaticServer.StaticResponse | galgameserver/server.hpp:164-185 | an empty or unreadable file is answered with the 404 page, any other with 200, its contents and the type of its extension |
| StaticServer.HandleRequest | galgameserver/server.hpp:192-232 | a request gets 200 exactly for the health check or a non-empty file; every other answer is the 404 page, which keeps the connection only for an empty file the client asked to keep it for |

## Left out

- Threads, locks, condition variables, atomics and promises: every module is modelled one thread at a time. The blocking and timed waits are not modelled: `push_back`/`pop_front` and the `try_*_for` calls of the annular queue, and the waits of `pop`, `pop_batch` and block-mode `push` in the task queues. Each of those reports `Waits`.
- The thread pool, scheduler and workers; the statistics, clock wrappers and `derivation` of the scheduler's vocabulary; the enums of it that no modelled code reads.
- `rank_deferred` and `try_pop_for` of the task queues, which run on a background thread and `system_clock::now()`. The deferred queue appears only as the kind `make_rank` returns.
- Ranks.PriorityRank: the push with a deadline and `set_max_size` are the base-class code already modelled once on Ranks.StandardRank (PushBefore, SetMaxSize).
- Deadlines, `is_timeout`, the time-cached dependency check and the promise-based units (`unit_standard`, `unit_overtime`) of the task units.
- Clocks: the timestamp sanity check of the header parsers is a parameter, and so is the current time of a deadline push.
- All cryptography: AES, Twofish, RSA, ElGamal, PBKDF2, HMAC, Base64, Hex and random generation. Salts, IVs, MACs and ciphertexts are opaque bytes. The MD5 and SHA-256 checksums are function parameters of the check-code computation.
- Crc32: the literal table is tied to the bitwise CRC-32 entry by entry, and each pass of the loop to eight bitwise steps (Crc32.Update); the whole register over a message is not restated as one bitwise theorem.
- Crc32.Crc: requires `length <= |data|`, because reading past the data is undefined behaviour in the source.
- `to_json` / `from_json` of the protocol headers, all of Boost.Beast, Boost.JSON and Boost.Asio, sessions, sockets, TLS and the connection pools.
- Forwarder: DNS resolution is the `resolved` parameter of AddUpstream. The upstream exchange, `forward_async`, the JSON configuration loader and the request and response filters are not part of this model.
- StaticServer: path canonicalisation, the web-root escape check and file reads are the `file` parameter of HandleRequest; the cached pages are the `pages` parameter. The accept loop and the 500 path of the session callback are not part of this model.
- Copy and move constructors, `operator=`, `swap` members, destructors and aliasing between containers; printing traversals and stream operators.
- Strings: `reverse_sub_string` is not modelled. A `const char *` argument is the chars before its terminator, so the members that take one require NUL-free text.
- Trees, the heap and the maps are keyed by `int` under the default `less`; custom comparators are not modelled. Pointer rewiring and parent pointers of the trees are replaced by rebuilt immutable subtrees.
- Queues.PriorityQueue: holds `int` elements, ordered by `less` or `greater`.
- Lists.List.Insert, Lists.List.Erase: the position must be a node of this list or null; a node of another list is undefined behaviour in the source.
- Lists.List.PopBack, Lists.List.PopFront: require a non-empty list; on an empty list the source erases its own sentinel.
- Lists.List.Append: requires two different lists; `l += l` never terminates in the source.
- Queues.Queue.Pop, Queues.PriorityQueue.Pop: require a non-empty queue, which the source leaves to its callers.
- Vectors.Vector.Erase: requires a position below the size; the source shifts from any pointer it is given.
- Blooms.BloomFilter.Test, Blooms.BloomFilter.Set: require a capacity above 0, since each position is taken modulo the capacity.
- Algorithm.Copy: requires distinct source and target arrays; overlapping copies are not modelled.
- HashTables.HashTable: the size and capacity are unbounded counts (a `uint64_t` capacity would wrap only after 2^63 buckets); only the products of the rehash test wrap, in HashTables.NeedsRehash.
- AnnularQueues.AnnularQueue.TryPopFront, AnnularQueues.AnnularQueue.Snapshot: require Valid(), so neither is modelled on the over-full state that `clear` as written allows (AnnularQueues.ClearThenOverfill shows it arising).
- RedBlackTrees.FixShortLeftBlack, RedBlackTrees.FixShortRightBlack: a missing sibling, where the source would dereference null, gets the tree back unrepaired; a red-black tree never has one beside a short subtree, and the order and shape lemmas about them assume a red-black tree.
- Algorithm.Copy: returns nothing; the source returns the address of its own by-value `first` parameter, a pointer that dangles once `copy` returns.
- Units.Reliance.constructor: keeps the non-null dependencies, the evidently intended filter; the as-written filter is `Units.Reliance.FromListAsWritten` (see Findings).
- The order of entries sharing a domain in the `unordered_multimap`: the standard leaves it unspecified (libstdc++ puts the newest first). The model fixes insertion order as an abstraction, so Forwarder.MatchOf without a port returns the first-added entry where libstdc++ would return the last-added one.
- Protocol: three round trips fail as written and are modelled as they are. A header with the CUSTOM checksum kind does not read back (Protocol.CustomChecksumNotReadBack). A content length of 2^32 or more does not read back, because it is read back into 32 bits (Protocol.LongContentNotReadBack). A status message with spaces does not read back (Protocol.SpacedStatusMessageNotReadBack). Every round-trip lemma excludes these cases.

## Findings

| source | as written | input that shows it | evidently intended | confidence | as-written member | corrected member |
|---|---|---|---|---|---|---|
| server/model/container/simulate_base.hpp:1436-1448 | `hash_table` pop, when the match is at the head of its chain, empties the whole bucket | identity hash, capacity 10: push 1, push 11, pop 11; then find(1) fails | unlink only the matching element | not executed | HashTables.PopDropsChain | HashTables.HashTable.Pop |
| server/model/container/simulate_base.hpp:927-939 | the red-black pop's test for the sibling's left child is always true | push 2, 1, 4, 3, pop 1 leaves a red node with a red child | test the colour of the sibling's children | not executed | RedBlackTrees.PopCaseTwoFault | RedBlackTrees.PopCorrect |
| server/model/container/simulate_base.hpp:1107-1147 | a node with two children takes its successor's colour | push 5, 2, 8, 1, 3, pop 2 gives unequal black heights | keep the removed node's colour in its place | not executed | RedBlackTrees.PopColourSwapFault | RedBlackTrees.PopCorrect |
| server/model/container/simulate_base.hpp:1155-1181 | the red-black find returns the first node on its path that is not less than the key | push 2, then 1: find(1) returns the node holding 2, though 1 is stored | return a node only for an equal key | not executed | RedBlackTrees.FindReturnsGreater | RedBlackTrees.LookupFinds |
| server/model/container/simulate_tree.hpp:1311-1358 | the AVL push keeps retracing after a rotation | push 1, 2, 3 stores balance factor -1 at the root of equal heights | stop after a rotation | not executed | AvlTrees.PushOneTwoThree | AvlTrees.InsertCorrect |
| server/model/container/simulate_tree.hpp:906-946 | the left-right rotation sets the balance factors of the right-left one | push 5, 2, 6, 1, 3, 4 leaves node 2 with factor 0 and node 5 with -1 | the mirrored factors: -1 for node 2 and 0 for node 5 | not executed | AvlTrees.PushLeftRightFactors | AvlTrees.PushLeftRightIntended |
| server/model/container/simulate_tree.hpp:1617-1673 | the AVL pop retraces with the signs inverted | push 3, 2, 4, 1; pop 1 leaves root 3 with factor -1 over two leaves; pop 4 then dereferences a null pointer | stop or go on as the shrinking subtree's height says | not executed | AvlTrees.PopThenPopFaults | AvlTrees.PopCorrect |
| server/model/container/simulate_map.hpp:185-200 | the `hash_map` bucket hash mixes in the value while equality compares keys only | capacity 10: (1, 0) and (1, 1) fall in buckets 1 and 2, so both are stored under key 1 | hash the key alone | not executed | MapsAndSets.HashMapDuplicateKeys | MapsAndSets.MapKeysUnique |
| server/model/sched/unit.hpp:704-711 | the `unit_reliance` list constructor removes the non-null dependencies and keeps the null ones | any list of non-null units gives a unit with no dependency, which counts as satisfied whatever their states | keep exactly the non-null dependencies | not executed | Units.AsWrittenIgnoresDependencies | Units.KeptSatisfied |
| galgameserver/model/concurrent/concurrent_annular_queue.hpp:277-285 | `clear` releases capacity more permits to the free-slot semaphore on top of those it still holds | capacity 1: clear a new queue, then push twice; both pushes succeed and the count is 2 | leave exactly capacity free slots | not executed | AnnularQueues.ClearThenOverfill | AnnularQueues.ClearThenPushTwice |
| server/model/container/simulate_vector.hpp:329-339 | a full vector with a non-null buffer of capacity 0 grows to 2 * 0 | push_back on a vector built from an empty list writes past the buffer | grow to 10 from capacity 0 | not executed | Vectors.GrowthAsWritten | Vectors.Growth |
| galgameserver/model/container/simulate_string.hpp:564-584 | `reverse` pushes onto a default string that already holds " " | reverse of "ab" gives " ba" | start from an empty string | not executed | Strings.Str.ReverseAsWritten | Strings.Str.Reverse |
