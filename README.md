# Verified model of the bit streams, the circular deque, the tree map and their programs

This project models, in Dafny, the data-structure core of a C++ course
repository and the decision logic of three programs built on it:

- `Modify2/bstream.h`: `BinaryInputStream` hands out the bits of a byte
  source most significant first (`GetBit`, `GetChar`, `GetInt`), and
  `BinaryOutputStream` packs bits into bytes (`PutBit`, `PutChar`, `PutInt`,
  `Close`, the destructor), padding a final partial byte with zeros
  (`bstream.dfy`). `bstream_roundtrip.dfy` proves that any sequence of puts,
  once closed, reads back as the same values.
- `Deque/deque.h`: a double-ended queue in a circular array that doubles when
  full and can be halved (`deque.dfy`). The class keeps the array, `size`,
  `front` and `tail` as the C++ does. A ghost `Contents` sequence is tied to
  the array slots by the class invariant.
- `Binary/treemap.h`: an ordered map from integer keys in an unbalanced binary
  search tree (`treemap.dfy`). The recursive helpers over `unique_ptr` nodes
  are functions on a `Tree` datatype. The public class holds the root and
  `size`.
- `Deque/plane_boarding.cc`: validates the first-class capacity, seats
  passengers into a deque and prints the boarding order (`boarding.dfy`).
- `Linear_Binary_Sort/rectangle_search.cc`: counts the queried areas that
  some rectangle has, by linear scan or by sort and bisection
  (`rectangles.dfy`).
- `Binary/eff_donations.cc`: tokenizes a `name,amount` file, loads it into
  the tree map, and answers `all` and `who [+|-]amount` (`donations.dfy`).
  `std::getline` and `std::stoi` are modelled exactly enough for this.

Shared pieces: `failures.dfy` has the error kinds, standing for the C++
exception classes, and the `Result`, `Option` and `Outcome` wrappers.
`decimal.dfy` has decimal digit strings.

A C++ exception is an `Err`/`Fail` value naming its class. A `Pass` means the
call returned normally. `OutOfRange` is `std::out_of_range`,
`InvalidArgument` is `std::invalid_argument` and `Underflow` is
`std::underflow_error`. A program's "print an error and exit" becomes
`InvalidCapacity` or `NoMatch`.

## Model

| member | source | states |
|---|---|---|
| BStream.BinaryInputStream.constructor | Modify2/bstream.h:25 | a new reader over a byte source has handed out no bits |
| BStream.BinaryInputStream.Consumed | Modify2/bstream.h:18-19 | the bits handed out never exceed the source's bits |
| BStream.BinaryInputStream.RefillBuffer | Modify2/bstream.h:27-33 | takes the next byte and makes 8 bits available; with no byte left it fails with underflow and changes nothing |
| BStream.BinaryInputStream.GetBit | Modify2/bstream.h:35-52 | returns bit number Consumed of the source's bit stream (bytes most significant bit first) and advances by one; at the end of the source it fails with underflow |
| BStream.BinaryInputStream.GetChar | Modify2/bstream.h:54-64 | returns the byte assembled from the next 8 bits of the stream; with fewer than 8 left it fails with underflow once the source is used up |
| BStream.BinaryInputStream.GetInt | Modify2/bstream.h:66-75 | returns the word assembled from the next 32 bits; with fewer left it fails with underflow once the source is used up |
| BStream.BinaryOutputStream.constructor | Modify2/bstream.h:97 | a new writer has written and buffered nothing |
| BStream.BinaryOutputStream.FlushBuffer | Modify2/bstream.h:107-122 | with nothing pending the sink is unchanged; otherwise one byte is written: the pending bits, then zeros in the low bits |
| BStream.BinaryOutputStream.Close | Modify2/bstream.h:103-105 | the accepted bits are padded with zeros to a whole byte and all reach the sink; closing with nothing pending writes nothing |
| BStream.BinaryOutputStream.Destroy | Modify2/bstream.h:99-101 | the destructor has the effect of Close |
| BStream.BinaryOutputStream.PutBit | Modify2/bstream.h:124-133 | the accepted bit stream grows by the bit; the eighth pending bit writes exactly the byte of those eight bits |
| BStream.BinaryOutputStream.PutChar | Modify2/bstream.h:135-142 | the accepted bit stream grows by the byte's 8 bits, most significant first |
| BStream.BinaryOutputStream.PutInt | Modify2/bstream.h:144-151 | the accepted bit stream grows by the word's 32 bits, most significant first |
| BStream.BitAtIsBitOf8 | Modify2/bstream.h:42 | `(b >> i) & 1` is bit i of the byte, that is bit 7 - i of its most-significant-first bits |
| BStream.ShiftIsShr8 | Modify2/bstream.h:138 | shifting a byte right by n places equals n one-place shifts |
| BStream.ShiftIsShr32Byte | Modify2/bstream.h:147 | shifting a word right by up to 8 places equals that many one-place shifts |
| BStream.Assemble8OfByteBits | Modify2/bstream.h:54-64 | shifting a byte's 8 bits into a register, most significant first, gives the byte back |
| BStream.ByteBitsOfAssemble8 | Modify2/bstream.h:124-133 | the byte assembled from 8 bits has exactly those bits |
| BStream.Assemble32OfWordBits | Modify2/bstream.h:66-75 | shifting a word's 32 bits into a register gives the word back |
| BStream.Assemble8Padded | Modify2/bstream.h:113-114 | shifting zeros in after the pending bits is a left shift of the register by the padding width |
| BStream.PaddedByteBits | Modify2/bstream.h:107-122 | writing a padded partial byte appends the pending bits and then exactly the padding zeros to the stream |
| BStream.EmitByte | Modify2/bstream.h:131-132 | writing the byte assembled from eight bits appends those eight bits to the stream |
| BStream.UnpackAt | Modify2/bstream.h:41-42 | bit k of the stream is bit 7 - k % 8 of byte k / 8 |
| BStream.UnpackAppend | Modify2/bstream.h:117 | the stream of two byte sequences in a row is the two streams in a row |
| BStreamRoundTrip.EncodePrefix | Modify2/bstream.h:124-151 | the bits of the first j puts are a prefix of the bits of all of them |
| BStreamRoundTrip.ReadStep | Modify2/bstream.h:35-75 | after the bits of the first i items, the stream holds the bits of item i |
| BStreamRoundTrip.ClosedLength | Modify2/bstream.h:103-122 | after closing, the sink is the accepted bits rounded up to whole bytes, padded with fewer than 8 zeros |
| BStreamRoundTrip.GetItem | Modify2/bstream.h:35-75 | a read of the kind of the stored item returns that item and advances past its bits |
| BStreamRoundTrip.WriteItems | Modify2/bstream.h:124-151 | putting the items in order accepts exactly their bits in order |
| BStreamRoundTrip.WriteAll | Modify2/bstream.h:99-151 | writing and closing gives ceiling(bits / 8) bytes holding the items' bits and then zeros |
| BStreamRoundTrip.ReadItems | Modify2/bstream.h:35-75 | reading the same kinds in the same order from the start returns the same items |
| BStreamRoundTrip.ReadAll | Modify2/bstream.h:35-75 | a fresh reader over the sink returns the items, and a further byte read fails with underflow |
| BStreamRoundTrip.RoundTrip | Modify2/bstream.h:8-151 | whatever is put and closed reads back identically in order, and nothing more reads as a byte |
| BStreamRoundTrip.MixedWrites | Modify2/test_bstream.cc:52-73 | two bits, two bytes, a bit and a word take 7 bytes and read back value for value |
| Deques.Deque.constructor | Deque/deque.h:81-83 | a new deque is empty and valid |
| Deques.Deque.Empty | Deque/deque.h:88-95 | true exactly when the deque holds no element |
| Deques.Deque.Size | Deque/deque.h:97-100 | the number of elements held |
| Deques.Deque.IsFull | Deque/deque.h:165-172 | true exactly when the count equals the array size; a full non-empty deque fills its array |
| Deques.Deque.Get | Deque/deque.h:123-136 | element pos of the contents for pos below the size, out_of_range otherwise |
| Deques.Deque.Front | Deque/deque.h:138-145 | the first element, or out_of_range when empty |
| Deques.Deque.Back | Deque/deque.h:147-154 | the last element, or out_of_range when empty |
| Deques.Deque.Clear | Deque/deque.h:156-163 | the deque becomes empty with array size 3; the old array stays in place |
| Deques.Deque.Resize | Deque/deque.h:175-188 | a full array is copied into a fresh one of twice the size; the block from `position` on moves up by the size, so every element sits in its new slot and the contents are unchanged |
| Deques.SlotAfterGrowAtEnd | Deque/deque.h:198-203 | after growing with the front in slot 0, element i sits at the wrapped slot the invariant expects |
| Deques.SlotAfterGrowAt | Deque/deque.h:204-210 | after growing at the front slot f, element i moves up by the old size |
| Deques.Deque.Restart | Deque/deque.h:192-197 | a push into an empty deque starts over with a fresh three-slot array and front and tail at 0 |
| Deques.Deque.RoomFront | Deque/deque.h:191-211 | the front steps back one slot, growing a full array first, and the contents stay in place |
| Deques.Deque.FrontAround | Deque/deque.h:198-203 | with the front in slot 0 the new front is the last slot, of the grown array when full |
| Deques.Deque.FrontDown | Deque/deque.h:204-210 | with the front past slot 0 the new front is the slot below, after growing at the front when full |
| Deques.Deque.PushFront | Deque/deque.h:190-214 | the contents become the value followed by the old contents |
| Deques.Deque.RoomBack | Deque/deque.h:217-242 | the tail steps on one slot, growing a full array first; the branch that grows at a non-full wrap is unreachable |
| Deques.Deque.BackUnwrapped | Deque/deque.h:224-228 | with the elements in slots 0 to size - 1 the tail moves up, after growing at the tail when full |
| Deques.Deque.BackUp | Deque/deque.h:229-241 | the tail wraps to slot 0 or moves up; a full array grows at the front and the front moves up by the size |
| Deques.Deque.PushBack | Deque/deque.h:216-245 | the contents become the old contents followed by the value |
| Deques.Deque.PopFront | Deque/deque.h:247-262 | drops the first element; empty fails with out_of_range |
| Deques.Deque.PopBack | Deque/deque.h:264-279 | drops the last element; empty fails with out_of_range |
| Deques.Deque.ShrinkToFit | Deque/deque.h:104-121 | the contents are unchanged; when a quarter of the array exceeds the size the array is halved and repacked from slot 0 to size - 1, otherwise the array, front and tail are untouched |
| Deques.Int32 | Deque/deque.h:125 | `static_cast<int>` of a `size_t` is the two's-complement value of its low 32 bits, a value in int's range that equals the argument when that fits |
| Deques.SlotAsWrittenEscapes | Deque/deque.h:124-132 | as written, position 2^32 on a one-element deque passes the range check and indexes slot 2^32 |
| Treemaps.Elements | Binary/treemap.h:52-59 | the mapping a tree represents has exactly the tree's keys |
| Treemaps.SubtreeLookup | Binary/treemap.h:164-177 | in a search tree a key below (above) the node's key is present exactly when it is in the left (right) subtree, with the same value |
| Treemaps.InsertAtKeys | Binary/treemap.h:97-111 | insertion refuses exactly the present keys with invalid_argument; otherwise the result is a search tree with the key added |
| Treemaps.InsertAtElements | Binary/treemap.h:97-111 | inserting an absent key adds exactly the mapping key to value |
| Treemaps.Reassemble | Binary/treemap.h:142-161 | a node over two search trees with keys on either side is a search tree |
| Treemaps.DeleteBySuccessor | Binary/treemap.h:151-155 | overwriting a node with its successor and deleting that successor removes exactly the node's key |
| Treemaps.LeastIsMinimum | Binary/treemap.h:114-120 | the leftmost node holds the least key and its value |
| Treemaps.GreatestIsMaximum | Binary/treemap.h:123-129 | the rightmost node holds the greatest key and its value |
| Treemaps.Min | Binary/treemap.h:114-120 | the walk down the left spine finds the leftmost node |
| Treemaps.Max | Binary/treemap.h:123-129 | the walk down the right spine finds the rightmost node |
| Treemaps.RemoveAtReports | Binary/treemap.h:131-161 | a node is unlinked exactly when the key was present |
| Treemaps.RemoveAtOrdered | Binary/treemap.h:140-161 | removal leaves a search tree |
| Treemaps.RemoveAtElements | Binary/treemap.h:140-161 | removal deletes exactly the key's mapping |
| Treemaps.RemoveAtKeys | Binary/treemap.h:140-161 | removal takes out exactly the key |
| Treemaps.RemoveAbsent | Binary/treemap.h:143-149 | removing an absent key leaves the tree as it was |
| Treemaps.FloorAt | Binary/treemap.h:183-206 | the descent finds the greatest key at most the given key, or nothing exactly when every key is larger |
| Treemaps.CeilAt | Binary/treemap.h:222-245 | the descent finds the least key at least the given key, or nothing exactly when every key is smaller |
| Treemaps.ContainsValueAt | Binary/treemap.h:275-287 | true exactly when some node holds the value |
| Treemaps.ValuesAreMapped | Binary/treemap.h:275-292 | in a search tree the node values are exactly the values the mapping takes |
| Treemaps.Treemap.constructor | Binary/treemap.h:58-59 | a new map is empty |
| Treemaps.Treemap.Size | Binary/treemap.h:70-73 | the number of mappings |
| Treemaps.Treemap.Empty | Binary/treemap.h:75-82 | true exactly when there is no mapping |
| Treemaps.Treemap.Insert | Binary/treemap.h:92-111 | an absent key gains the mapping and nothing else changes; a present key fails with invalid_argument and leaves the tree as it was |
| Treemaps.Treemap.Remove | Binary/treemap.h:131-161 | the key's mapping is gone and the others stay; the call passes exactly when the key was present, and an absent key fails with invalid_argument leaving the tree as it was |
| Treemaps.Treemap.Get | Binary/treemap.h:163-179 | the value of a present key; an empty map fails with out_of_range, an absent key with invalid_argument |
| Treemaps.Treemap.FloorKey | Binary/treemap.h:208-218 | the greatest key at most the argument; out_of_range when empty, invalid_argument when every key is larger |
| Treemaps.Treemap.CeilKey | Binary/treemap.h:247-256 | the least key at least the argument; out_of_range when empty, invalid_argument when every key is smaller |
| Treemaps.Treemap.ContainsKey | Binary/treemap.h:258-271 | true exactly when the key is mapped |
| Treemaps.Treemap.ContainsValue | Binary/treemap.h:289-292 | true exactly when some key maps to the value |
| Treemaps.Treemap.MaxKey | Binary/treemap.h:294-299 | the greatest key, or out_of_range when empty |
| Treemaps.Treemap.MinKey | Binary/treemap.h:301-306 | the least key, or out_of_range when empty |
| Decimal.RenderValue | Deque/plane_boarding.cc:22 | reading a number's rendering gives the number |
| Decimal.PositiveDigits | Deque/plane_boarding.cc:15-30 | a digit string denotes a positive number exactly when some digit is not 0, so a digit-only capacity is accepted exactly then; the empty string and "000" are refused |
| Boarding.ParseCapacity | Deque/plane_boarding.cc:13-30 | accepted exactly when every character is a digit and the value is positive, with that value; refused with the capacity error otherwise |
| Boarding.SeatedShape | Deque/plane_boarding.cc:35-41 | after seating, the deque holds the other passengers latest first, then the first-class passengers in arrival order |
| Boarding.ClassesPartition | Deque/plane_boarding.cc:36-40 | the two classes together are the passengers, each once |
| Boarding.ReverseReverse | Deque/plane_boarding.cc:42-47 | reversing twice is the identity |
| Boarding.BoardingOrder | Deque/plane_boarding.cc:35-47 | the printed order is the first-class passengers latest first, then the others in arrival order, and it is a permutation of the passengers |
| Boarding.Board | Deque/plane_boarding.cc:31-47 | printing and popping the back until empty prints that order, every passenger exactly once, and leaves the deque empty |
| Rectangles.LessIsStrictWeakOrder | Linear_Binary_Sort/rectangle_search.cc:27-29 | ordering by area is irreflexive and transitive, and its ties are exactly equal areas, which are transitive |
| Rectangles.InsertByAreaOrdered | Linear_Binary_Sort/rectangle_search.cc:102 | inserting into an area-sorted sequence keeps it sorted |
| Rectangles.SortByAreaSorts | Linear_Binary_Sort/rectangle_search.cc:102 | sorting gives a permutation of the rectangles with non-decreasing areas |
| Rectangles.HitCountBound | Linear_Binary_Sort/rectangle_search.cc:87-94 | each query counts at most once, and nothing counts without rectangles |
| Rectangles.HitCountOfPermutation | Linear_Binary_Sort/rectangle_search.cc:102-119 | reordering the rectangles changes no count |
| Rectangles.LinearCount | Linear_Binary_Sort/rectangle_search.cc:87-94 | the linear scan counts the queries some rectangle's area equals |
| Rectangles.Bisect | Linear_Binary_Sort/rectangle_search.cc:106-118 | on area-sorted rectangles, bisection finds a query exactly when some rectangle has that area |
| Rectangles.BinaryCount | Linear_Binary_Sort/rectangle_search.cc:102-119 | sorting and bisection give the same count as the definition |
| Rectangles.Search | Linear_Binary_Sort/rectangle_search.cc:76-119 | both search methods give the number of queries matched, between 0 and the number of queries |
| Donations.IndexOf | Binary/eff_donations.cc:89 | the first position of the delimiter, or the length when it does not occur |
| Donations.AfterDelimiter | Binary/eff_donations.cc:86-92 | a delimiter-free piece followed by the delimiter is the first piece `getline` extracts |
| Donations.Split | Binary/eff_donations.cc:89-91 | the `getline` loop extracts exactly the pieces of the text |
| Donations.Tokenize | Binary/eff_donations.cc:86-92 | lines are split at line breaks and then at commas, and the fields collected in order |
| Donations.FieldsOfLine | Binary/eff_donations.cc:87-91 | a `name,amount` line with comma-free fields splits into exactly the name and the amount |
| Donations.TokensOfFile | Binary/eff_donations.cc:86-92 | a file of such lines gives name, amount, name, amount, ... in file order |
| Donations.StoI | Binary/eff_donations.cc:95 | `stoi` gives a value within int, or invalid_argument or out_of_range |
| Donations.StoIOfRender | Binary/eff_donations.cc:95 | `stoi` reads back every int from its decimal rendering |
| Donations.WhoArgument | Binary/eff_donations.cc:62-69 | a leading '+' or '-' is the choice and the amount is `stoi` of the rest; otherwise the choice is ' ' and the amount is `stoi` of the whole argument; `stoi`'s errors pass through; the amount is within int |
| Donations.WhoArgumentReads | Binary/eff_donations.cc:62-69 | a sign then a rendered amount reads as that choice and amount; an unsigned amount reads with choice ' '; a negative amount without a sign reads as choice '-' and its magnitude |
| Donations.Load | Binary/eff_donations.cc:94-97 | the map holds the pairs' amounts mapped to names when every pair loads; otherwise the error that stops the loop |
| Donations.LoadedShape | Binary/eff_donations.cc:94-97 | a load that succeeds had an even number of tokens and adds one mapping per pair on top of what the map held |
| Donations.LoadedFresh | Binary/eff_donations.cc:95-96 | in a load that succeeds every amount parses and was not already a key |
| Donations.LoadedPairs | Binary/eff_donations.cc:94-97 | in a load that succeeds every pair's amount maps to that pair's name |
| Donations.LoadedDistinct | Binary/eff_donations.cc:94-97 | a load that succeeds had no two pairs with the same amount |
| Donations.Find | Binary/eff_donations.cc:19-42 | ' ' returns a present amount and reports no match otherwise; '+' ('-') returns the next larger (smaller) key when there is one; at the largest (smallest) key it fails with invalid_argument; with no key on that side it reports no match; an empty map fails with out_of_range |
| Donations.FindIntended | Binary/eff_donations.cc:19-42 | the same, except that no larger (smaller) key always reports no match |
| Donations.BoundaryQueries | Binary/eff_donations.cc:26-39 | on the map {50: Ada}, `who +50` and `who -50` fail with invalid_argument as written and report no match with strict guards |
| Donations.All | Binary/eff_donations.cc:8-16 | on a non-empty map ten keys with their names, starting at the least key, each the next larger key after the one before or the largest key repeated; an empty map fails with out_of_range |
| Donations.Advance | Binary/eff_donations.cc:12-14 | one step moves to the least larger key, or stays at the largest |
| Donations.WalkAscends | Binary/eff_donations.cc:8-16 | the keys `all` prints never decrease |
| Donations.NoKeySkipped | Binary/eff_donations.cc:8-16 | every key up to the last one printed is printed |

## Left out

- File and console I/O are parameters: the byte source and sink of the
  streams, the passenger list, the rectangle and query lists, the donation
  file's text and the command-line strings. All printing is left out. So are
  the usage and file-open checks, the timing code and the output file of
  `rectangle_search.cc`.
- The `eof()`-driven reading loops of `rectangle_search.cc` append one
  spurious record at the end of the file. The model takes the rectangles and
  queries as given.
- The `while (passenger >> a)` parsing of passenger numbers is left out, and
  the passengers are a `seq<int>`.
- Search: requires the choice to be 'l' or 'b'. The prompt loop that re-asks
  until it is (`rectangle_search.cc:76-79`) is input handling.
- The `rich`, `cheap` and invalid-command branches of `eff_donations.cc`
  (lines 99-116) are left out: they are MaxKey/MinKey followed by Get, and
  printing.
- `exit(1)` after "No match" in `find` is the value Err(NoMatch). The
  exceptions are values and are never caught.
- The loading loop reads `values[i + 1]` past the end when the token count is
  odd, which is undefined behaviour. The model reports Err(OutOfRange) there.
- Donations.StoI: `std::stoi` of a value outside `long` is out_of_range as
  well. The model reads digits into an unbounded integer and refuses what is
  outside `int`, which gives the same verdict.
- Boarding.ParseCapacity: `atoi` of a digit string too large for `int` is
  undefined behaviour. The model uses the exact value.
- Rectangles.MakeRectangle: the definition of the record built from the four
  coordinates read (`rectangle_search.cc:46-52`), with the area of line 51,
  `(c - a) * (d - b)`. It has no contract of its own: the counts use only
  the area it stores. The area is an exact integer. The `int`
  overflow of `(c - a) * (d - b)` is not modelled.
- Donations.Find: `amount + 1` and `amount - 1` are exact, so the `int`
  overflow at the range's ends is not modelled.
- Rectangles.SortByArea: `std::sort` is modelled by insertion sort. The
  order among rectangles of equal area is therefore not the library's, but
  every count depends only on the areas.
- Rectangles.Bisect: `high = size() - 1` converts an unsigned 0 - 1 to -1.
  The model takes -1 directly.
- The treemap's `unique_ptr` child slots and the recursive helpers that
  rewrite them in place are a `Tree` datatype and functions on it. Node
  identity and the moves are not modelled.
- Treemaps.Treemap.FloorKey: `FloorKey` throws with the message "No larger
  key". The model, like CeilKey, reports the class invalid_argument only.
- The template parameters of `Treemap<K, V>` are fixed to `int` keys and
  a value type with equality, which is what `eff_donations.cc` uses.
- Deques.Deque.Clear: the three-slot array that `Clear` allocates is
  discarded and never installed, and the model keeps the old array as the
  source does. The `front = -1` of `Clear` and of the pops is modelled as
  written.
- Deques.Deque.ShrinkToFit: the C++ halves the array at most once per call,
  and so does the model.
- `operator[]` returns a reference that callers could assign through. The
  model returns the element's value.
- BStream.BinaryOutputStream.PutInt: bit i is taken by i one-place shifts
  (`Shr32`). Its equality with the C++ `word >> i` is proved only for up to
  8 places (ShiftIsShr32Byte): a symbolic 32-bit shift is beyond the solver
  here.
- `char` and `int` in `bstream.h` are signed. The model uses `bv8` and
  `bv32`: the shifts there only ever pick single bits below the sign, where
  arithmetic and logical shifts agree.
- The other cases of `Modify2/test_bstream.cc` are instances of
  BStreamRoundTrip.RoundTrip and are not written out separately.

## Findings

| source | as written | input that shows it | evidently intended | confidence | as-written member | corrected member |
|---|---|---|---|---|---|---|
| Deque/deque.h:124-132 | `operator[]` range-checks `static_cast<int>(pos)` but indexes with the unconverted `pos` | `pos` = 2^32 on a one-element deque with front 0 and array size 3: the cast gives 0, which passes, and slot 2^32 is read | positions at or beyond the size throw out_of_range | not executed | Deques.SlotAsWrittenEscapes | Deques.Deque.Get |
| Binary/eff_donations.cc:27-28, 34-35 | `find` guards '+' with `MaxKey() >= amount` and '-' with `MinKey() <= amount` | `who +50` when 50 is the largest amount: the guard lets it through and `CeilKey(51)` throws invalid_argument instead of printing "No match" | the guards are strict, `>` and `<`, so a query with no larger (smaller) key prints "No match" | not executed | Donations.BoundaryQueries | Donations.FindIntended |
