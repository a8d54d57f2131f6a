# lstd: a model of its hard parts, with proofs

lstd is a replacement for the C++ standard library. This project models six parts of it in Dafny,
as the code is written, and proves what their documentation promises: for every input, every
sequence of calls or every interleaving of threads. Where the code does less than it says, the
model keeps the code, names an input that shows the difference and proves the exact condition
under which the promise holds.

`dafny verify dfyconfig.toml` checks everything.

| files | part of the library |
|---|---|
| `Matrices`, `Permutations`, `Lup`, `Crout`, `LinearSolver`, `Determinants`, `MatrixFunctions` | LU decomposition with and without pivoting, solving, inverse, determinant, over the real numbers |
| `Powers`, `U128`, `S128AsWritten` | 128-bit integers on two 64-bit limbs |
| `PowersOfTwo`, `HashTable` | the open-addressing hash table |
| `Utf8`, `Utf8Sequences`, `WordTricks`, `EatBytes`, `MemoryMoves`, `Strings`, `StringSearch`, `StringReplace`, `StringOrder` | UTF-8 strings on byte buffers (sections 1, 3 and 4 of RFC 3629) |
| `OnceInit`, `OnceEpochs`, `OnceDeadlock` | thread-safe initialisation of function-local statics |
| `AllocationHeaders`, `Arenas`, `GeneralAllocator`, `DebugList` | allocation headers, the arena, the list of allocations of debug builds |
| `ParseInt`, `Guids`, `GuidGrammar`, `GuidErrors` | integer parsing, printing and parsing guids |
| `Sequences` | sums and sequences of distinct elements, for several of them |

## How the model is built

* Objects that the library updates in place are classes (`HashTable`, `Utf8String`, `Arena`, `Pool`,
  `Heap`, `DebugMemory`), buffers are arrays, and loops are loops with invariants. A method is
  proved against a function or predicate on values, and the main results are lemmas about those.
* Several methods take ghost parameters: the code points that a buffer encodes, the map that a hash
  table stands for, the index at which a header is in a list. They are names for the proof and do
  not influence what is computed.
* Some proofs `hide` function bodies that they do not need. This only makes the proofs cheaper.
* Numbers of the matrices are real numbers. Everywhere else integer widths, wrap-around and
  truncation are written out. Masks and shifts are written as remainders, quotients and products by
  powers of two, except in `WordTricks`, which works on 32-bit vectors.
* The three parallel arrays of the hash table are one array of slots. `hash & (Allocated - 1)` is
  the remainder by `Allocated`, which is a power of two.
* The protocol of `OnceInit` is a state machine. Each statement of the runtime that reads or writes
  a shared word is a step, and any thread may take the next step. The code the compiler emits around
  a declaration compares the guard with the epoch of the thread, calls the header, and runs the
  initialiser exactly when the guard then reads -1; it calls the footer afterwards, or the abort
  function when the initialiser throws. A thread has a stack of declarations it is in: initialisers
  and code that uses a variable may enter further ones.
* A heap keeps its headers in memory. A header is encoded little-endian at the places its size,
  alignment and padding have in the release or the debug build; its other fields are parameters.
  Memory has at most 2^64 bytes.

## Where the code and its documentation differ

* `u128.h:530` assigns to the divisor where a comparison is meant, so `div_mod` always divides by
  zero. `DivModAsWritten` says exactly what comes out; at run time it is another quotient than in
  constant evaluation, where the index of the most significant bit of zero is 0 and not -1
  (`common.h:463-466`). `DivMod` has the comparison in its place.
* `u128.h:297` negates without adding one and is wrong for every operand; `u128.h:405` adds it. The
  absolute value at `u128.h:436` and the signed operators use this negation too. The module
  `Int128AsWritten` says for which operands the signed operators come out right with both as they
  are; `SDiv` and `SMod` are over the corrected ones.
* `u128.h:498` shifts a negative number right by 64 or more without extending the sign.
* `hash_table.h:274` does not lift hashes below 2 as `hash_table.h:307` does, so keys with such hashes
  are added again and never found (`AddedTwice`); a key that hashes to 0 can match an unused slot
  (`RemovingHashZero`). `hash_table.h:376` calls a lookup with three arguments that does not exist;
  the model calls the one for prepared hashes. Removing leaves `Count` as it is and a rehash counts
  the entries it moves again (`SeventeenKeys`). During a rehash the counters and the size still
  describe the old table: entries go where the old size sends them, and the table can grow once
  more inside. Insertion always asks for the size that this growth makes; an explicit `reserve`
  need not, and then the size that is recorded at the end is larger than the block (`ReserveBreaks`),
  or entries stay before their new homes (`ReserveLeavesBehind`).
* `string_utils.h:400-402` speaks of the third and fourth byte but checks only the third.
* `string.h:346` turns away a search from `-Length`, which is in range.
* `string.h:265` reports the index before the first difference when one text ends inside the other.
* `array_like.h:108` compares as many elements as the target has without looking where the array
  ends, so `find` and `array_replace_all` can find what lies behind the array, and the latter then
  writes there, or moves a negative count of bytes.
* `array.h:197-202` shifts the bytes, or frees the block, before it reads what is to be inserted, and
  `string.cpp:84` counts the code points after that; both matter when a string is inserted into itself.
* `allocator.cpp:430` copies the old size also when the allocation shrinks (`ShrinkRunsOver`).
* `arena_allocator.cpp:96-104` adds a first pool for calls other than ALLOCATE and ADD_POOL, so the first ALLOCATE
  uses a null pointer. For sizes from 8168 to 8192 the pool that is added is too small.
* `arena_allocator.cpp:30-40` leaves `TotalUsed` as it is when a used pool is removed.
* `allocator.cpp:519-532` says it removes the headers of one allocator from the list, and removes all.
* `allocator.h:196` keeps the alignment in 16 bits; 2^16 and more become zero. The size requested also
  includes the alignment, unlike the comment at `allocator.h:188-190` says.
* `parse.h:252-256` takes the remainder of a negative number, so in bases that are not powers of two
  negative numbers next to the limit, the least number of the type among them, are reported as too
  large. In the other bases the limit is accepted, and held as a negative number: the test then lets
  one more digit pass, which wraps (`ParsesWrappedNumber`). For types of 8 and 16 bits the quotient
  is computed in 32 bits and then truncated, and it can be too large: 116 instead of 12 for eight
  bits in base 10 (`ParsesTooLargeNumber`).
* `parse.h:430-439` eats two bytes as soon as the first one is a hexadecimal digit, and it ignores
  the digit mapper it is given.
* `decompose_lu.h:65-115` divides by zero for matrices that are regular but have a singular leading
  block (`NoFactorsWithoutPivoting`).
* `decompose_lu.h:119` gives the two parities the wrong way round: the code yields 1 for an even and
  -1 for an odd permutation. `decomposition_lup::solvable` looks at the unit diagonal of `L` and is
  always true.
* `thread_safe_statics.cpp:172-175` says that the other threads are blocked until the initialisation
  completes or fails; with initialisers that enter each other's variables, or their own, that can be
  forever. `DeadlockFreeExactly` says for which programs it never is.
* `thread_safe_statics.cpp:216-217` reaches the value -1 with completion number 2^31 - 1.

## Model

| member | source | states |
|---|---|---|
| `Lup.DecomposeLup` | lstd/src/lstd/math/decompose_lu.h:120-168 | For every square matrix, singular ones included: unit lower L with entries at most 1 in absolute value, upper U, a permutation P with (L U)(i, k) = A(P[i], k), and the parity is the sign of P by inversion count |
| `Lup.FindPivot` | lstd/src/lstd/math/decompose_lu.h:132-142 | The pivot is the largest absolute value of the column from the diagonal down, and zero only when all of them are zero |
| `Lup.SwapKeepsInPlace` | lstd/src/lstd/math/decompose_lu.h:144-147 | Swapping two unfinished rows with their permutation entries keeps, for every entry, that finished factors plus the rest give the permuted input |
| `Lup.SkipKeepsInPlace` | lstd/src/lstd/math/decompose_lu.h:142 | A column without a nonzero candidate is finished as it stands |
| `Lup.EliminationKeepsInPlace` | lstd/src/lstd/math/decompose_lu.h:149-153 | Elimination below the pivot keeps the invariant one column further and keeps multipliers at most 1 |
| `Lup.SplitIsLup` | lstd/src/lstd/math/decompose_lu.h:156-165 | Splitting the finished array gives the two factors of the permuted input |
| `Permutations.SwapFlips` | lstd/src/lstd/math/decompose_lu.h:145-146 | Exchanging any two positions of a permutation flips the sign that is defined by inversions |
| `LinearSolver.SolveImpl` | lstd/src/lstd/math/decompose_lu.h:178-212 | For triangular factors without zero pivots the two passes over one augmented matrix give the one and only solution of L (U x) = b |
| `LinearSolver.PivotStepClears` | lstd/src/lstd/math/decompose_lu.h:190-192 | Dividing the pivot row and subtracting it keeps the solutions, clears one entry and keeps the triangular shape |
| `LinearSolver.PermutedSystem` | lstd/src/lstd/math/decompose_lu.h:217-218 | Permuting equations and right-hand side together keeps the solutions |
| `LinearSolver.Solve` | lstd/src/lstd/math/decompose_lu.h:214-221 | Whenever U has no zero on its diagonal the result is the one and only solution of A x = b |
| `Crout.DecomposeLu` | lstd/src/lstd/math/decompose_lu.h:65-115 | None of the pivots it divides by is zero exactly when no leading block of the matrix of an order below n is singular; then L is lower, U unit upper and L U = A |
| `Crout.PivotDecides` | lstd/src/lstd/math/decompose_lu.h:86-107 | With the pivots before it nonzero, a pivot is zero exactly when the leading block that ends with it is singular |
| `Crout.SolveWithLu` | lstd/src/lstd/math/decompose_lu.h:18-20 | When no leading block is singular, the matrix itself included, solving with these factors gives the one and only solution |
| `Crout.NoFactorsWithoutPivoting` | lstd/src/lstd/math/decompose_lu.h:83-89 | A regular matrix that has no such factors at all |
| `MatrixFunctions.SingularIffZeroPivot` | lstd/src/lstd/math/decompose_lu.h:117-118 | A matrix sends a nonzero vector to zero exactly when U has a zero on its diagonal |
| `MatrixFunctions.Inverse` | lstd/src/lstd/math/mat_func.h:333-352 | For every matrix that is not singular the result is its inverse from both sides |
| `MatrixFunctions.RightInverseIsLeft` | lstd/src/lstd/math/mat_func.h:333-352 | A right inverse of a matrix that is not singular is a left inverse |
| `MatrixFunctions.Determinant` | lstd/src/lstd/math/mat_func.h:156-167 | The determinant, defined by expansion along the first column, of every matrix; nonzero exactly for matrices that are not singular |
| `Determinants.SwapNegates` | lstd/src/lstd/math/decompose_lu.h:144-147 | Exchanging any two rows flips the sign of the determinant |
| `Determinants.DetUnitLower` | lstd/src/lstd/math/mat_func.h:156-167 | A unit lower factor does not change the determinant |
| `Determinants.DeterminantOfLup` | lstd/src/lstd/math/mat_func.h:156-167 | Every pivoted decomposition of a matrix gives the same value, the determinant: the sign of P times the diagonal of U |
| `MatrixFunctions.Solvable` | lstd/src/lstd/math/decompose_lu.h:53-62 | On the factor of a pivoted decomposition the test always answers yes |
| `MatrixFunctions.SolvableTestAcceptsSingular` | lstd/src/lstd/math/decompose_lu.h:53-62 | The zero matrix is singular and has a decomposition the test accepts |
| `Int128.Add` | lstd/src/lstd/types/u128.h:344-348 | Addition with carry is addition modulo 2^128 |
| `Int128.Sub` | lstd/src/lstd/types/u128.h:350-354 | Subtraction with borrow is subtraction modulo 2^128 |
| `Int128.ShlCorrect` | lstd/src/lstd/types/u128.h:326-333 | Shifting left across the limbs is multiplication by a power of two modulo 2^128 |
| `Int128.ShrCorrect` | lstd/src/lstd/types/u128.h:335-342 | Shifting right across the limbs is division by a power of two |
| `Int128.MulCorrect` | lstd/src/lstd/types/u128.h:356-365 | Four 32-bit partial products, shifts and carrying adds give the product modulo 2^128, for all operands |
| `Int128.Msb128IsMsb` | lstd/src/lstd/internal/common.h:453-461 | The bit index found by limbs is the index of the most significant bit of the whole number |
| `Int128.MsbLoop` | lstd/src/lstd/internal/common.h:463-466 | The loop for constant evaluation agrees with it, but answers 0 for 0 instead of -1 |
| `Int128.DivideUnguarded` | lstd/src/lstd/types/u128.h:532-563 | Behind the guard: quotient and remainder for every nonzero divisor, and what comes out for zero, at run time and in constant evaluation |
| `Int128.DivModAsWritten` | lstd/src/lstd/types/u128.h:527-564 | As written no nonzero divisor gets a correct pair; the remainder is right exactly for dividends below the divisor; the quotient at run time exactly for 2^128 - 1 by 1, in constant evaluation exactly for dividends of all ones by 1 |
| `Int128.DivMod` | lstd/src/lstd/types/u128.h:527-564 | With the guard compared: dividend = quotient * divisor + remainder, remainder below the divisor, zeros for a zero divisor |
| `Int128.NegAsWrittenNeverNegates` | lstd/src/lstd/types/u128.h:295-300 | Unary minus as written is wrong for every operand |
| `Int128.Neg` | lstd/src/lstd/types/u128.h:295-300 | With the one added it is the two's complement |
| `Int128.SNeg` | lstd/src/lstd/types/u128.h:403-408 | Signed negation, with the least number its own negation |
| `Int128.SMulCorrect` | lstd/src/lstd/types/u128.h:430-433 | The signed product modulo 2^128, and the exact product when it fits |
| `Int128.UnsignedAbsoluteValue` | lstd/src/lstd/types/u128.h:435-437 | Over the negation with the one added: the absolute value of every signed number, the least one included |
| `Int128.SDiv` | lstd/src/lstd/types/u128.h:439-446 | Over the compared guard and that negation: truncated division but for the least number by -1, which gives the least number |
| `Int128.SMod` | lstd/src/lstd/types/u128.h:448-455 | Over the compared guard and that negation: the remainder takes the sign of the dividend, for every nonzero divisor |
| `Int128AsWritten.AbsoluteValueExactly` | lstd/src/lstd/types/u128.h:435-437 | Over the negation as written the absolute value is right exactly for numbers that are not negative |
| `Int128AsWritten.AbsoluteValueAsWritten` | lstd/src/lstd/types/u128.h:435-437 | How far it is off for negative numbers |
| `Int128AsWritten.SDivAsWritten` | lstd/src/lstd/types/u128.h:439-446 | Over guard and negation as written the quotient is the truncated one exactly for a few pairs, and which ones: at run time pairs of different signs, in constant evaluation others |
| `Int128AsWritten.SModAsWritten` | lstd/src/lstd/types/u128.h:448-455 | At run time and in constant evaluation the remainder as written is the truncated one exactly for dividends of smaller magnitude whose low limb, when they are negative, is neither zero nor all ones, and for minus 2^64 by its divisors |
| `Int128.SShrCorrect` | lstd/src/lstd/types/u128.h:492-499 | The signed right shift divides and rounds down exactly when the amount is below 64 or the number is not negative |
| `PowersOfTwo.CeilPow2Loop` | lstd/src/lstd/types/type_info.h:1022-1031 | The loop computes the least power of two that is at least its argument |
| `PowersOfTwo.CeilPow2IsLeast` | lstd/src/lstd/types/type_info.h:1022-1031 | No smaller power of two is as large |
| `HashTables.HashTable.FindPrehashed` | lstd/src/lstd/memory/hash_table.h:271-288 | A slot with the hash and the key, or -1 when nothing is counted or no slot has them; for valid hashes -1 means that there is none |
| `HashTables.EntriesBeforeFirstUnused` | lstd/src/lstd/memory/hash_table.h:271-288 | Every entry stands before the first unused slot after its home, so a search that stopped there would find the same |
| `HashTables.HashTable.Probe` | lstd/src/lstd/memory/hash_table.h:309-313 | The unbounded probe ends at an unused slot with no unused slot between home and it |
| `HashTables.HashTable.AddPrehashed` | lstd/src/lstd/memory/hash_table.h:301-322 | One more entry under the lifted hash, in the first unused slot from its home on when nothing grows; at most half full, a power of two, every entry still reachable; also in the middle of a rehash |
| `HashTables.HashTable.Reserve` | lstd/src/lstd/memory/hash_table.h:166-229 | For any target: which block, counter and entries it leaves; the recorded size is the least power of two that is at least 32 and exceeds target and filled slots together; the same entries always; a valid table exactly when nothing grows inside the call, or to the size that is recorded; and then every entry reachable exactly when it grew inside or the new size keeps the homes |
| `HashTables.SizeForIsLeast` | lstd/src/lstd/memory/hash_table.h:170-171 | The size that is reserved is the least power of two that is at least 32 and exceeds what is filled and asked for |
| `HashTables.RehashedIsReachable` | lstd/src/lstd/memory/hash_table.h:211-228 | By the old slots: every entry is reachable exactly when the table grew inside, or no hash has its new home behind the old size and no entry goes on at the front, that is, no old slot has more homes at or behind it than there are slots; and by the new ones: when no entry stands before its home |
| `HashTables.ReserveBreaks` | lstd/src/lstd/memory/hash_table.h:170-228 | From nine keys on a large target leaves 64 slots and a recorded size of 128 or more |
| `HashTables.ReserveLeavesBehind` | lstd/src/lstd/memory/hash_table.h:211-228 | One key that an explicit reserve leaves before its new home |
| `HashTables.HashTable.MoveEntries` | lstd/src/lstd/memory/hash_table.h:211-214 | Moving the entries of the old slots with the counters that are still the old ones, for any block: where they go, what is counted, and when the table grows once more inside |
| `HashTables.HashTable.Find` | lstd/src/lstd/memory/hash_table.h:291-294 | Finds a slot exactly when one has hash and key and something is counted; an entry exactly when there is one and its hash is valid; with the map: exactly its keys, with their values |
| `HashTables.HashTable.Set` | lstd/src/lstd/memory/hash_table.h:356-369 | The map with one key updated, from a table that stands for a map exactly when the hash is at least 2; for every hash which case it is: the slot that is found gets the value, or one entry is added, with the new counters and the new size |
| `HashTables.HashTable.Subscript` | lstd/src/lstd/memory/hash_table.h:135-139 | The value of the key, after adding the initial value when there is none; with the map exactly when the hash is at least 2, and the same two cases for every hash |
| `HashTables.AddedTwice` | lstd/src/lstd/memory/hash_table.h:274-307 | A key that hashes to 1 is in the table twice after it was set twice |
| `HashTables.HashTable.Remove` | lstd/src/lstd/memory/hash_table.h:375-390 | The map without the key, and whether it was there; Count then exceeds the size by one more. For a key that hashes to 0 the table stays valid exactly when no slot is found or the counter covers one slot more |
| `HashTables.RemovingHashZero` | lstd/src/lstd/memory/hash_table.h:375-383 | Removing a key that hashes to 0 breaks the bound on the slots in use |
| `HashTables.HashTable.Reset` | lstd/src/lstd/memory/hash_table.h:249-265 | No entries, and counters at zero |
| `HashTables.Run` | lstd/src/lstd/memory/hash_table.h:135-390 | Any sequence of set, operator[] and remove, with the growth it causes, does to the table what it does to a map, for keys whose hashes are at least 2, and keeps the relation of Count to the number of pairs |
| `HashTables.RunToInvalidHash` | lstd/src/lstd/memory/hash_table.h:135-390 | Any sequence of calls in which a store may have any hash: the table stands for the map up to the first store under a hash below 2, and no longer after it |
| `HashTables.RunFromNew` | lstd/src/lstd/memory/hash_table.h:135-390 | From a new table: the table stands for the map, every entry is reachable, and Count is the size of the map exactly when no call removed a key that was there and there are at most 16 pairs |
| `HashTables.SeventeenKeys` | lstd/src/lstd/memory/hash_table.h:301-316 | Seventeen keys and no removal: Count is 33 |
| `HashTables.Equal` | lstd/src/lstd/memory/hash_table.h:403-412 | Equal counters and containment of the pairs; equality of the maps whenever both surpluses are the same; when they differ, wrong exactly for equal maps and for equal counters with the first map contained in the second |
| `HashTables.EqualityAfterRemoval` | lstd/src/lstd/memory/hash_table.h:403-412 | After a removal an empty table equals one with an entry in one direction only |
| `Utf8.EncodeDecode` | lstd/src/lstd/memory/string_utils.h:312-355 | Every code point up to 1FFFFF survives encoding and decoding, and its encoding is a well-formed unit |
| `Utf8.RoundTripExactly` | lstd/src/lstd/memory/string_utils.h:312-355 | It does so exactly up to 1FFFFF |
| `Utf8.EncodingIsInTable` | lstd/src/lstd/memory/string_utils.h:312-338 | For code points up to 1FFFFF a sequence of bytes is the encoding exactly when it is in the table of section 3 of RFC 3629, continued to 21 bits |
| `Utf8.ValidUnitIsScalar` | lstd/src/lstd/memory/string_utils.h:357-407 | What the check accepts, with a fourth byte that continues, is the encoding of a scalar value |
| `Utf8.ScalarPrefixIsValid` | lstd/src/lstd/memory/string_utils.h:357-407 | Every encoding of a scalar value is accepted, whatever follows it |
| `Utf8.IsValidUtf8Exactly` | lstd/src/lstd/memory/string_utils.h:357-407 | The check accepts exactly the buffers that start with the encoding of a scalar value, if and only if the first three bytes are not those of a four-byte encoding with a fourth byte that does not continue it |
| `Utf8.AcceptsBrokenFourthByte` | lstd/src/lstd/memory/string_utils.h:400-402 | Four bytes that are accepted although they encode nothing |
| `Utf8Sequences.Utf8Length` | lstd/src/lstd/memory/string_utils.h:62-71 | Counting the bytes that are not continuations counts the code points |
| `Utf8Sequences.LeadsOfEncode` | lstd/src/lstd/memory/string_utils.h:62-71 | Encoded text has as many lead bytes as code points |
| `Utf8Sequences.GetCpAtIndex` | lstd/src/lstd/memory/string_utils.h:412-415 | Stepping by lead bytes comes to the offset of the code point |
| `Utf8Sequences.BoundaryIsOffset` | lstd/src/lstd/memory/string_utils.h:282-297 | Bytes that are not continuations are where code points start |
| `Utf8Sequences.PrefixOfBytes` | lstd/src/lstd/memory/string_utils.h:312-338 | Text is a prefix of other text when its bytes are |
| `Utf8Sequences.EncodeInjective` | lstd/src/lstd/memory/string_utils.h:312-338 | Different texts have different bytes |
| `Utf8Sequences.EncodeCpAt` | lstd/src/lstd/memory/string_utils.h:312-338 | Writes the encoding into a buffer and nothing else |
| `Utf8Sequences.Utf32ToUtf8` | lstd/src/lstd/memory/string_utils.h:469-480 | The encoding of null-free text and its length; the rest of the buffer stays |
| `Utf8Sequences.Utf8ToUtf32` | lstd/src/lstd/memory/string_utils.h:433-442 | The code points and a null; the rest of the buffer stays |
| `Utf8Sequences.RoundTrip` | lstd/src/lstd/memory/string_utils.h:433-480 | Null-free text converted to UTF-8 and back is the same text |
| `WordTricks.U32HasByte` | lstd/src/lstd/internal/common.h:520-524 | The word test is true exactly when one of the four bytes is the one looked for |
| `WordTricks.HasZeroByteExactly` | lstd/src/lstd/internal/common.h:520-521 | The subtraction test is nonzero exactly when a byte is zero |
| `WordTricks.HasByteAt` | lstd/src/lstd/internal/common.h:523-524 | The same for four bytes of a buffer |
| `EatBytes.EatBytesUntil` | lstd/src/lstd/parse.h:599-611 | The bytes before the first delimiter and the rest from it on, or the whole buffer when there is none |
| `MemoryMoves.CopyMemory` | lstd/src/lstd/internal/common.h:377-398 | Copying works for overlapping ranges: the range arrives as it was, the rest stays |
| `Strings.Utf8String.ArrayReserve` | lstd/src/lstd/memory/array.h:113-132 | The same bytes with strictly more room than asked for; a block that is too small or not owned is replaced by a power of two, at least 8 |
| `Strings.Utf8String.ArrayInsertAt` | lstd/src/lstd/memory/array.h:192-205 | The bytes with a buffer inserted, before the index or, when that is negative, so many bytes before the end; a viewed buffer is not written |
| `Strings.Utf8String.ArrayInsertOwn` | lstd/src/lstd/memory/array.h:192-205 | A range of its own block is inserted: read after it was freed exactly when there is no room; otherwise right exactly when what lies behind the gap repeats itself |
| `Strings.ReadsShiftedByte` | lstd/src/lstd/memory/array.h:199-202 | The last of three bytes inserted before the first: the second one arrives |
| `Strings.Utf8String.ArrayRemoveRange` | lstd/src/lstd/memory/array.h:261-278 | The bytes without a range, each end counted from the front or, when it is negative, from the end; a viewed buffer is not written |
| `Strings.Utf8String.Set` | lstd/src/lstd/memory/string.cpp:43-68 | The code point at an index, or at -k the k-th from the end, becomes another one of any size; all others, validity and viewed buffers are kept |
| `Strings.Utf8String.InsertAt` | lstd/src/lstd/memory/string.cpp:70-78 | One code point is inserted before the index, or so many before the end when it is negative |
| `Strings.Utf8String.InsertTextAt` | lstd/src/lstd/memory/string.cpp:80-85 | The code points of a text are inserted there, and counted |
| `Strings.Utf8String.InsertOwnTextAt` | lstd/src/lstd/memory/string.cpp:80-85 | A part of its own text is inserted: exactly when the string is valid afterwards, always when the part ends before the index and the block has room |
| `Strings.CountsChangedRange` | lstd/src/lstd/memory/string.cpp:84 | Two code points inserted between them are counted as three |
| `Strings.Utf8String.RemoveAt` | lstd/src/lstd/memory/string.cpp:87-94 | One code point is removed, at -k the k-th from the end |
| `Strings.Utf8String.RemoveRange` | lstd/src/lstd/memory/string.cpp:96-106 | A range of code points is removed, each end counted from the front or, when it is negative, from the end |
| `Strings.EncodeExchanged` | lstd/src/lstd/memory/string.cpp:43-106 | Exchanging a range of code points exchanges exactly the range of bytes that encodes them |
| `Strings.MoveAndWrite` | lstd/src/lstd/memory/string.cpp:60-64 | Moving the tail and then writing over the gap exchanges the range |
| `StringReplace.FindSubarray` | lstd/src/lstd/memory/array_like.h:100-114 | The search stops at the first place that looks like a match; it is right exactly when there is a match from the start on or no place looks like one |
| `StringReplace.FindsWhatIsNotThere` | lstd/src/lstd/memory/array_like.h:107-111 | Two bytes are found in an array of one |
| `StringReplace.ArrayReplaceAll` | lstd/src/lstd/memory/array.h:302-337 | Ends for every replacement. Leftmost non-overlapping replacement when the last search finds nothing; when it runs over the end, a replacement of the same size is written there up to the end, and otherwise nothing is defined; which of these it is, by what block and memory hold |
| `StringReplace.CutExists` | lstd/src/lstd/memory/array.h:302-337 | The elements can be cut into pieces with the target between them so that no piece lets the target match earlier |
| `StringReplace.ReplaceJoins` | lstd/src/lstd/memory/array.h:302-337 | For any such pieces, leftmost replacement is the same pieces with the replacement between them, and it is finished where the last piece begins |
| `StringReplace.SafeWhateverFollows` | lstd/src/lstd/memory/array_like.h:107-111 | No contents of memory behind the bytes mislead the last search exactly when the bytes behind the last replacement do not break off in the middle of a target |
| `StringReplace.ReplacesWhatIsNotThere` | lstd/src/lstd/memory/array.h:302-337 | A view of "xa" in front of "b": replacing "ab" by "cd" gives "xc" |
| `StringReplace.ReplaceBytesIsReplaceCps` | lstd/src/lstd/memory/string.h:204-207 | Replacing in the bytes is replacing in the code points |
| `StringReplace.UnitDoesNotRunOver` | lstd/src/lstd/memory/string.h:210-218 | What looks like one code point in encoded text lies inside the text |
| `StringReplace.StringReplaceAll` | lstd/src/lstd/memory/string.h:203-245 | Every occurrence of the text is replaced when the search does not run over the end; the length is counted afresh; a target of one code point never fails |
| `StringSearch.FindBytes` | lstd/src/lstd/memory/string.h:353-371 | The least position from the start on where all bytes match, skipping four at a time |
| `StringSearch.BytesAreOccurrence` | lstd/src/lstd/memory/string.h:366-369 | Matching bytes are matching code points |
| `StringSearch.FindSubstring` | lstd/src/lstd/memory/string.h:341-373 | The least index of an occurrence from the start on, or -1, exactly unless the start is -Length and the needle occurs |
| `StringSearch.MissesFirstFromEnd` | lstd/src/lstd/memory/string.h:346 | A needle that a search from -Length misses |
| `StringSearch.CountOccurrences` | lstd/src/lstd/memory/string.h:608-617 | The number of elements of the set of indices at which the needle occurs, overlaps included |
| `StringOrder.CompareLexicographically` | lstd/src/lstd/memory/string.h:295-313 | The loop computes the comparison by code points |
| `StringOrder.CompareIsBytewise` | lstd/src/lstd/memory/string.h:295-313 | It is the lexicographic order of the code points and that of the bytes, each defined by the first difference |
| `StringOrder.OperatorsAreTotalOrder` | lstd/src/lstd/memory/string.h:676-681 | The operators are a strict total order, its reflexive closure and converses, consistent with equality |
| `StringOrder.CompareIndex` | lstd/src/lstd/memory/string.h:253-269 | The index of the first difference, exactly unless one of two nonempty texts extends the other; then one less |
| `OnceInit.StepKeepsInv` | lstd/src/lstd_platform/windows_no_crt/thread_safe_statics.cpp:176-221 | Every step of any thread, with initialisers that enter any declarations, keeps the invariant of lock, owners, guards and epochs, below 2^31 - 1 variables; with it, the epoch of a thread that has left the header without the claim, or is past the footer, covers the guard |
| `OnceInit.RunKeepsInv` | lstd/src/lstd_platform/windows_no_crt/thread_safe_statics.cpp:14-24 | The invariant holds in every reachable state |
| `OnceInit.InvImpliesSafe` | lstd/src/lstd_platform/windows_no_crt/thread_safe_statics.cpp:172-221 | One frame of one thread initialises a variable at a time, none twice; the header is left without the claim only after the footer; a completed guard stays; an epoch covers a guard only of a completed variable, and of every variable its thread has learned to be complete; a variable whose initialiser threw is uninitialised when the abort function gives the lock back |
| `OnceInit.CompletedStays` | lstd/src/lstd_platform/windows_no_crt/thread_safe_statics.cpp:214-221 | A completed variable keeps its guard for the rest of every run |
| `OnceInit.LaterCompletionIsLarger` | lstd/src/lstd_platform/windows_no_crt/thread_safe_statics.cpp:216-217 | Footers write strictly increasing guards |
| `OnceInit.SafeIffBelowLimit` | lstd/src/lstd_platform/windows_no_crt/thread_safe_statics.cpp:14-24 | All runs, nested initialisers included, are safe if and only if there are fewer than 2^31 - 1 guarded variables |
| `OnceEpochs.EpochsGrow` | lstd/src/lstd_platform/windows_no_crt/thread_safe_statics.cpp:172-221 | Over any run the epoch of no thread decreases |
| `OnceEpochs.LearnedStays` | lstd/src/lstd_platform/windows_no_crt/thread_safe_statics.cpp:172-221 | Once a thread has used a variable, or left its header or footer, its epoch covers the guard for the rest of the run |
| `OnceEpochs.UsedOnceNeverAsksAgain` | lstd/src/lstd_platform/windows_no_crt/thread_safe_statics.cpp:172-221 | After that every later comparison the thread makes for this variable leads to its use and never to the header |
| `OnceEpochs.ThrownIsLeftToOthers` | lstd/src/lstd_platform/windows_no_crt/thread_safe_statics.cpp:200-211 | An initialiser that throws leaves its variable uninitialised: it is not completed until its frame is left, and its guard then says so |
| `OnceDeadlock.DeadlockFreeExactly` | lstd/src/lstd_platform/windows_no_crt/thread_safe_statics.cpp:172-199 | By which variables the initialiser of which variable enters: no run gets stuck inside a declaration, and every wait leads to a thread that makes progress, if and only if the variables can be ranked so that initialisers enter lower ones only |
| `OnceDeadlock.WayBackDeadlocks` | lstd/src/lstd_platform/windows_no_crt/thread_safe_statics.cpp:181-195 | Any way from a variable through initialisers back to itself deadlocks a single thread, and with which run |
| `OnceDeadlock.TwoThreadDeadlock` | lstd/src/lstd_platform/windows_no_crt/thread_safe_statics.cpp:181-195 | A run to two initialisers that wait for each other |
| `OnceDeadlock.SelfDeadlock` | lstd/src/lstd_platform/windows_no_crt/thread_safe_statics.cpp:181-195 | A run to an initialiser that waits for itself |
| `OnceDeadlock.StuckExactly` | lstd/src/lstd_platform/windows_no_crt/thread_safe_statics.cpp:176-199 | Nothing inside a declaration moves on exactly when the lock is free and every thread inside one waits for an initialiser |
| `OnceDeadlock.NoDeadlock` | lstd/src/lstd_platform/windows_no_crt/thread_safe_statics.cpp:176-199 | In any state in which initialisers entered variables of lower rank only, some thread inside a declaration can make progress whenever there is one |
| `AllocationHeaders.PaddingAligns` | lstd/src/lstd/memory/allocator.h:219-223 | The padding is the least one that aligns the pointer |
| `AllocationHeaders.PaddingWithHeaderAligns` | lstd/src/lstd/memory/allocator.h:225-237 | With a header: room for it, aligned behind it, and the least such padding |
| `AllocationHeaders.PaddingRightExactly` | lstd/src/lstd/memory/allocator.h:218-237 | For any power of two: the padding has room for the header and aligns exactly when the alignment is at most 2^15 or the next aligned pointer is behind the header and less than 2^16 away |
| `AllocationHeaders.LayoutFits` | lstd/src/lstd/memory/allocator.cpp:226-285 | Header, aligned bytes of the user and guard lie in the block that was requested |
| `AllocationHeaders.FreeRecovers` | lstd/src/lstd/memory/allocator.cpp:483-517 | Freeing computes the block and the size that were requested |
| `AllocationHeaders.HeaderKeepsAlignment` | lstd/src/lstd/memory/allocator.h:196 | A power of two is kept if and only if it is at most 2^15; others become zero |
| `AllocationHeaders.HeaderLayout` | lstd/src/lstd/memory/allocator.h:173-198 | Size, alignment and padding are the little-endian numbers in the bytes at their places |
| `AllocationHeaders.HeaderRoundTrip` | lstd/src/lstd/memory/allocator.h:173-198 | Size, alignment and padding written into the bytes of a header are read back, whatever its other fields hold |
| `Arenas.Arena.AddPool` | lstd/src/lstd/memory/arena_allocator.cpp:18-29 | A block larger than the record becomes the last pool; the total stays the sum of what is used |
| `Arenas.Arena.RemovePool` | lstd/src/lstd/memory/arena_allocator.cpp:30-40 | The pool leaves the list; the total then exceeds the sum by what was used in it |
| `Arenas.Arena.Allocate` | lstd/src/lstd/memory/arena_allocator.cpp:41-57 | The next bytes of the first pool with room; none exactly when no pool has room; a null pointer is used exactly when there is no pool |
| `Arenas.Arena.FreeAll` | lstd/src/lstd/memory/arena_allocator.cpp:74-86 | Nothing is used, in any pool and in total |
| `Arenas.Arena.AllocateTemporary` | lstd/src/lstd/memory/arena_allocator.cpp:93-124 | Exactly when the temporary allocator uses a null pointer, when it adds a pool, of 8192 bytes or the least power of two that is at least twice the size, and for which sizes that does not help |
| `Arenas.Arena.FreeAllTemporary` | lstd/src/lstd/memory/arena_allocator.cpp:96-107 | Freeing everything gives it a first pool of 8192 bytes when it has none, and leaves nothing used |
| `Arenas.BlocksApart` | lstd/src/lstd/memory/arena_allocator.cpp:50-53 | Blocks given out by pools that do not overlap have no byte in common |
| `Arenas.BlocksLeaveRecords` | lstd/src/lstd/memory/arena_allocator.cpp:50-53 | No block reaches into the record of a pool |
| `GeneralAllocator.Heap.Allocate` | lstd/src/lstd/memory/allocator.cpp:307-370 | A live range of the size whose header says it: aligned to 8, to the alignment asked for, or to that of the context when none is; the allocator is asked for size, header, the alignment that is used, and the guard in debug builds, and there is a block exactly when a pool has room for that; nothing else is written, so header, bytes and guard of every other live range stay |
| `GeneralAllocator.Heap.Reallocate` | lstd/src/lstd/memory/allocator.cpp:372-481 | To any size: the old bytes are at the start of the new range; when it shrinks the copy goes on behind that range, stops the program exactly when it would leave memory, and leaves header, bytes and guard of every range that was live as long as it ends in the pool of the new block |
| `GeneralAllocator.ShrinkRunsOver` | lstd/src/lstd/memory/allocator.cpp:430 | One hundred bytes that become one: the copy runs over the end of pool and memory |
| `GeneralAllocator.Heap.BlockAndSize` | lstd/src/lstd/memory/allocator.cpp:488-505 | Block and size computed from the bytes of the header are those of the allocation |
| `GeneralAllocator.Heap.Free` | lstd/src/lstd/memory/allocator.cpp:483-517 | The range is no longer live; block and size handed to the allocator are those it gave |
| `GeneralAllocator.Heap.FreeAll` | lstd/src/lstd/memory/allocator.cpp:519-538 | No range is live and nothing is used |
| `GeneralAllocator.LiveRangesApart` | lstd/src/lstd/memory/allocator.cpp:226-285 | Live ranges with header and guard are disjoint from each other and from the records of the pools |
| `GeneralAllocator.OthersUntouched` | lstd/src/lstd/memory/allocator.cpp:226-285 | What is written into one live range, its header or its guard leaves all other live ranges as they are |
| `GeneralAllocator.InsideBlock` | lstd/src/lstd/memory/allocator.cpp:226-285 | A live range is aligned, inside its block and its pool |
| `DebugList.DebugMemory.AddHeader` | lstd/src/lstd/memory/allocator.cpp:42-51 | The list with a header in front, well linked, with the head leading to the tail |
| `DebugList.DebugMemory.UnlinkHeader` | lstd/src/lstd/memory/allocator.cpp:22-40 | The list without the header, well linked |
| `DebugList.DebugMemory.SwapHeader` | lstd/src/lstd/memory/allocator.cpp:53-78 | The list with one header in the place of another |
| `DebugList.DebugMemory.UnlinkAll` | lstd/src/lstd/memory/allocator.cpp:524-531 | The list is empty afterwards, which is what freeing one allocator should leave exactly when all headers were of that allocator |
| `DebugList.UnlinksForeignHeader` | lstd/src/lstd/memory/allocator.cpp:524-531 | A header of another allocator that leaves the list |
| `ParseInt.Parse` | lstd/src/lstd/parse.h:208-335 | For every integer type and combination of options, on the text: a sign is skipped exactly when signs are parsed, "+" only when it is allowed, and only "-" negates; "0x" and "0X" give base 16 and another "0" base 8 exactly when prefixes are looked for; when bytes are missing, and with which rest; then the first digit at which the test stops it and the limit of the type or the digits so far, or a number that the type takes for the whole number; and that this is what is meant exactly when the test is right at every digit |
| `ParseInt.DigitsExactly` | lstd/src/lstd/parse.h:29-38 | A byte is a digit exactly when it is in one of the two lists of 36 digits below the base, and is worth its place there |
| `ParseInt.FirstDigit` | lstd/src/lstd/parse.h:309-324 | The number of a text of n + 1 digits: the first one is worth base^n times itself |
| `ParseInt.TypeLimits` | lstd/src/lstd/parse.h:248-256 | The limits of all eight types in both signs |
| `ParseInt.OutcomeIsResult` | lstd/src/lstd/parse.h:208-335 | What comes out is the number, or the limit behind the first digit that makes it too large, exactly when the test is right at every digit |
| `ParseInt.TooManyDigitsExactly` | lstd/src/lstd/parse.h:309-324 | Overflow is reported exactly when the number of the digits exceeds the maximum |
| `ParseInt.AlwaysRightUnlessNegative` | lstd/src/lstd/parse.h:248-256 | The test is always right for unsigned types and for numbers that are not negative |
| `ParseInt.NegativeRightExactly` | lstd/src/lstd/parse.h:251-256 | For negative numbers of signed types: exactly when no digit is misjudged; for 32 and 64 bits exactly unless some digits from the front stand for a number from the last multiple of the base to the limit, all of them being allowed to when the base divides the limit |
| `ParseInt.ParsesWrappedNumber` | lstd/src/lstd/parse.h:309-324 | Eight bits in base 16 take -801 without overflow and give -1 |
| `ParseInt.ParsesTooLargeNumber` | lstd/src/lstd/parse.h:252-256 | Eight bits in base 10 take -129 without overflow and give 127 |
| `Guids.EatHexByteByParseInt` | lstd/src/lstd/parse.h:430-439 | Two digits, or one digit and whatever byte follows it |
| `Guids.EatsTwoDigitsExactly` | lstd/src/lstd/parse.h:430-439 | It eats exactly two digits if and only if not only the first byte is a digit |
| `Guids.Print` | lstd/src/lstd/fmt/fmt.h:34-111 | The text of each of the five formats in both cases, byte by byte: length, brackets, hyphens, commas and prefixes at their places, and at each place of a digit the character of the half byte; and no other format |
| `Guids.ReadByLoops` | lstd/src/lstd/parse.h:466-591 | The loops of the parser compute the outcome that is defined on values, errors and reads behind the buffer included |
| `GuidGrammar.AcceptsExactly` | lstd/src/lstd/parse.h:455-591 | A guid is read exactly from sixteen units in one of the layouts and brackets, where a unit is a digit and any byte, or from such a text cut before that last byte, and then the parser ends one byte behind the buffer; and which guid that is |
| `GuidErrors.InvalidExactly` | lstd/src/lstd/parse.h:455-591 | A byte is reported as invalid if and only if nothing that could follow the buffer makes it a text that is read as a guid |
| `GuidErrors.ReportsFirstWrongByte` | lstd/src/lstd/parse.h:455-591 | The rest that is reported begins at p exactly when the bytes before p can still become a guid and the bytes up to and with p cannot; only where the opening brace of the nested form is missing it is the whole buffer |
| `GuidErrors.OtherwiseBytesAreMissing` | lstd/src/lstd/parse.h:455-591 | Every other failure says that bytes are missing, gives the whole buffer back, and the buffer can still become a guid |
| `Guids.RoundTrip` | lstd/src/lstd/parse.h:455-591 | Every guid printed in any format and case, with anything behind it, is read back and leaves exactly what was behind it |
| `Guids.PrintAndRead` | lstd/src/lstd/fmt/fmt.h:34-111 | The same for the two methods one after the other |

## Left out

- Floating point: rounding, NaN and the conversion of solutions to `vec<f32>`. Division by zero, which the source allows in `decompose_lu` and the solvers, has a fixed value that no result depends on.
- Crout.DecomposeLu: says nothing about the factors when a leading block of an order below n is singular, because the source divides by zero then.
- SIMD types, quaternions, swizzles and geometry, and the special forms of inverse and determinant for small dimensions: straight-line algebra.
- Int128.SDiv: is stated over the compared guard and the corrected negation, like SMod; for both as written see the module Int128AsWritten.
- HashTables.Run: keys with hashes below 2 are not part of a run; RunToInvalidHash says when the first of them ends the relation to the map, and Set, Subscript and Remove what each call does with them. `reset` and explicit `reserve` are not part of a run either.
- Alignment of the arrays in a hash table, and hashing itself: `hasher` never reduces its size after the buffered part.
- UTF-16 conversions: the lead surrogate is overwritten at `string_utils.h:450`.
- Strings.Utf8String.Set: takes code points up to 1FFFFF, the ones that survive encoding; so do the other edits.
- Strings.Utf8String.RemoveRange: asks for a range that does not end before it begins; the source would copy and grow.
- Strings.Utf8String.InsertTextAt: when the string owns its block, text from another buffer; for its own text see InsertOwnTextAt, which stops where the source would read a block that was freed.
- Strings.Utf8String.ArrayInsertAt: likewise, see ArrayInsertOwn.
- Views start at the beginning of their buffer. A block that grows is always a new one; in the source it may stay where it is.
- `eat_bytes_while`, the reverse and negated searches and the case-insensitive comparisons.
- StringReplace.ArrayReplaceAll: stops where the source would move a negative count of bytes or write behind the block.
- OnceInit.SafeIffBelowLimit: lock, wait and notify are the ideal ones; the condition variable and its timeouts are a step from sleeping to holding the lock.
- GeneralAllocator.Heap.Allocate: alignments up to 2^15, the ones a header keeps and freeing can divide by; PaddingRightExactly and HeaderKeepsAlignment say what happens to larger ones.
- The patterns debug builds fill memory with and the links of the debug list inside headers in memory, the verification of headers, leak reports, and the TLSF allocator.
- ParseInt.Parse: the digit mapper is the default one. Where the arithmetic of a signed type wraps, which C++ leaves undefined for 64 bits, it wraps in two's complement.
- Guids.Print: that a hexadecimal format of width two prints two digits and that the alternative form adds a zero and the type letter is assumed. The source also passes a seventeenth byte that no placeholder prints.
- `quick_sort_partition`, `bucket_array`, `delegate`, type traits, tuples, `path`, `os`, the crash handler and start-up code.
