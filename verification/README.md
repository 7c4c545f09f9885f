# A Dafny model of the MIRACL core: multi-precision arithmetic and AES

This project models the two computational cores of the `miracl_core` directory and proves that they
compute what they are for.

**Multi-precision arithmetic** (`big.cpp`, `big.h`). A BIG is an array of NLEN signed words in radix
2^BASEBITS. Words are unbounded integers here; wherever the program stores into a `chunk` or a
`dchunk`, the model truncates to that width (`Config.Word`, `Config.Dword`), so that a proof of
exactness is also a proof that nothing overflowed. The radix bits, the number of limbs and the word
width are parameters (`Words.Config`), never fixed numbers. `Limbs.Value` is the integer that limbs
denote; `Normal` means that every limb is a digit, `LowNormal` that every limb but the top one is.
Every routine is a method over arrays that overwrites limbs in place, as the source does.

**The unrolled code generators** (`config64.py`). `StraightLine` gives a syntax and an evaluator for
the assignment lists that the generators print; `GenMul`, `GenSqr` and `GenRedc` contain the
generators, as loops that append statements, and prove that for every N the list they emit means the
arithmetic. `StraightWords` evaluates the same lists on words, where sums, products and stores are cut
to their chunk or dchunk, and the generators are proved to emit lists that mean the same there.

**AES** (`aes.cpp`). `AesStandard` and `AesField` state the cipher, the inverse cipher, the key expansion and the
S-box as FIPS 197 defines them, on bytes and without tables. `AesCipher` states the round theorem over any tables with
four facts, `AesTables` contains the 256-entry tables of the program and proves those facts of them, `Aes` has the
context, the key expansion and the table-driven block functions. `AesConforms` and `AesProgram` prove that what the
program computes is the standard's cipher, for every key and block; `AesExample` is the standard's own example.
`AesModes` is the mode-of-operation machine, `AesChaining` says what whole runs of it compute, `AesCbc` has the padded
CBC functions over octet strings, and `AesMessages` says what these compute.

**hash_to_field** (`bls.cpp`) is the end-to-end use of the arithmetic: byte parsing, constant-time
reduction, and the conversion to the field representation (`fp.cpp`, for a modulus of no special form).

## How the parts fit

- `Arith`, `Words`, `Limbs`, `Columns`: powers and congruences; machine words and the two `muladd`
  variants; limb values and carries; convolution columns and the product they denote.
- `BigMul`, `BigRows`, `BigSqr`, `BigSqrRows`: the product by columns (Comba and Karatsuba), by rows,
  and squaring by columns and by rows. All are proved equal, limb for limb, to `Columns.Product`, which
  `ProductCorrect` shows to be the product and `ProductUnique` to be the only normalised one; so all
  variants agree.
- `BigMonty`: the three Montgomery reductions, all proved to return a normalised `IsReduction`, which
  `ReductionUnique` shows to be unique; so the variants agree here too.
- `BigNorm`, `LazyCarry`: the lazy additions and the normalisation, and the discipline of excess
  counters over whole runs of a register machine whose operations they are.
- `BigShift`, `BigBits`, `BigDivide`, `BigModular`, `BigInverse`, `BigInverse2m`, `BigJacobi`,
  `JacobiProduct`, `BigBytes`, `FpResidue`, `HashToField`: shifts; comparison and bit counts;
  constant-time division; modular arithmetic; inversion modulo p and modulo 2^k; the Jacobi symbol and
  its multiplicativity; bytes and splitting; Montgomery residues; slices.
- `StraightLine`, `StraightWords`, `GenMul`, `GenSqr`, `GenRedc`: the generated code.
- `AesWord`, `AesField`, `AesStandard`, `AesCipher`, `AesTables`, `Aes`, `AesConforms`, `AesCounter`, `AesModes`,
  `AesChaining`, `AesProgram`, `AesExample`, `AesCbc`, `AesMessages`.

## What turned out not to hold as written

- `BIG_modneg` returns m, not 0, for a multiple of m. `BigModular.ModNeg` states when the result is
  reduced: if and only if a is not a multiple of m. `BigModular.NegatedMultiple` is an instance.
- `BIG_invmodp` never ends when a shares a factor with p without being a multiple of it:
  `BigInverse.EndsIfCoprime` shows of the loops on u and v that they end if and only if a mod p is prime
  to p, and `BigInverse.NeverEnds` that they do not for a = 3 and p = 9. No inverse exists then
  (`BigInverse.NoInverse`). For every other a the method is proved to end with the inverse, or with 0
  for a multiple of p.
- `BIG_invmod2m` ends by masking limb BIGBITS/BASEBITS, which exists if and only if BIGBITS is not a
  multiple of BASEBITS (`BigInverse2m.MaskInRange`, and `MaskOutOfRange` for 448 bits in limbs of 56).
- `BIG_split` leaves the top limb of the upper part unmasked; the parts make up the number if and only
  if that limb fits in a chunk (`BigBytes.Split`, and `SplitLosesTop` for an input that does not).
- `BIG_ddiv` shifts a one by the difference of bit lengths within NLEN limbs. The limb it lands in exists
  if and only if that difference is below BASEBITS*NLEN (`BigDivide.DDivInRange`);
  `BigDivide.DDivOutOfRange` gives operands, with a quotient that would fit, for which it does not, and
  `BigDivide.QuotientBits` a bound on the operands for which it does.
- `BIG_dshl` and `BIG_dshr` lack the guards that `BIG_shl` and `BIG_shr` have: a shift by BASEBITS*(2*NLEN-1)
  bits or more makes the former read a negative limb, and one by BASEBITS*2*NLEN or more makes the latter write one
  (`BigShift.DoubleShiftInRange`, if and only if; `BigShift.DoubleShiftOutOfRange`).
- `BIG_dmod` therefore reads a negative limb if and only if the bit lengths of its operands differ by that much
  (`BigDivide.DModInRange`); `BigDivide.DModOutOfRange` is the largest double number modulo one. Within
  `BIG_ddiv` and `BIG_modmul` the shift is always smaller. `BigDivide.QuotientBits` bounds the operands for which
  the difference is small enough, and `HashToField.LongModulus` shows that a modulus of more than BASEBITS bits is
  enough in hash_to_field.
- `FP_redc` returns the modulus, not 0, for the residue that is the modulus itself, and is fully reduced for
  every other one (`FpResidue.Redc`). `FP_nres` never makes that residue (`FpResidue.ResidueStandsFor`).
- What `AES_encrypt` returns in the CFB modes depends on whether plain char is signed; `AesModes.FellOffSigned`
  says exactly for which bytes it does not.
- The limit that NEXCESS sets on a limb is tight: `LazyCarry.LimitIsTight` shows a number one unit above
  it whose normalisation changes its value.

## Model

| member | source | states |
|---|---|---|
| Words.MuladdWide | miracl_core/big.h:652-657 | the double-width step: x*y + c + r = top*2^B + r' with r' a digit, only limb k changed, no dchunk overflow |
| Words.MuladdHalves | miracl_core/big.h:664-688 | the half-word fallback satisfies the same equation for even B, although every intermediate is truncated to a chunk |
| Columns.Karatsuba | miracl_core/big.cpp:604-631 | a window of a convolution column equals its diagonal products plus the products of differences, by induction on the window |
| Columns.KaratsubaColumn | miracl_core/big.cpp:613-629 | so do the whole columns of both phases |
| Columns.ProductCorrect | miracl_core/big.cpp:543-545 | the carried columns are digits and denote the product of the two numbers |
| Columns.ProductUnique | miracl_core/big.cpp:543-545 | no other limbs of that length, normalised below the top, denote the product |
| BigMul.MulComba | miracl_core/big.cpp:583-602 | the column loops leave exactly the product's limbs, with no dchunk overflow |
| BigMul.MulKaratsuba | miracl_core/big.cpp:605-630 | so do the loops with the running sum of diagonals and the signed differences |
| BigRows.MulRows | miracl_core/big.cpp:634-647 | so do the muladd rows, for either muladd |
| BigRows.SMul | miracl_core/big.cpp:521-541 | the truncated product is the product modulo 2^(B*N), normalised |
| BigSqr.SquareColumn | miracl_core/big.cpp:684-712 | a column of the square is twice its first half plus, in even columns, the middle square |
| BigSqr.SqrComba | miracl_core/big.cpp:680-724 | the paired-column loops and the three hand-written columns, for even and odd N, leave the limbs of a*a |
| BigSqrRows.SquareOfSum | miracl_core/big.cpp:731-744 | twice the cross products above the diagonal plus the squares is the square |
| BigSqrRows.SqrRows | miracl_core/big.cpp:729-746 | the row fallback, doubling limbs in place before adding the squares, leaves the limbs of a*a |
| BigMonty.ReductionBounds | miracl_core/big.cpp:755-869 | a reduction x of d satisfies x*R = d (mod md) and x < 2*md |
| BigMonty.ReductionUnique | miracl_core/big.cpp:755-869 | with a Montgomery constant there is only one reduction of d |
| BigMonty.VariantsAgree | miracl_core/big.cpp:755-869 | so normalised results of any two variants are the same limbs |
| BigMonty.HighHalf | miracl_core/big.cpp:830-838 | once the low columns cancel, the carried high half is the reduction and nothing is carried out of it |
| BigMonty.MontyComba | miracl_core/big.cpp:789-810 | the column loops return the normalised reduction of d |
| BigMonty.MontyKaratsuba | miracl_core/big.cpp:813-838 | so do the loops with the differences of v and md |
| BigMonty.MontyRows | miracl_core/big.cpp:846-862 | so does the in-place muladd variant, for either muladd |
| BigNorm.NormValue | miracl_core/big.cpp:1034-1054 | normalising limbs within the excess bound preserves the value |
| BigNorm.LimbPlusCarry | miracl_core/big.cpp:1034-1054 | within the bound, limb plus carry never leaves the signed chunk |
| BigNorm.NormCong | miracl_core/big.cpp:1034-1054 | whatever the top limb, normalising keeps the value modulo 2^(B*N) |
| BigNorm.Norm | miracl_core/big.cpp:1034-1074 | the carry loop leaves the normalised limbs of the specification |
| BigNorm.NormExcess | miracl_core/big.cpp:1034-1054 | the value that BIG_norm returns is the number shifted right by 8*MODBYTES bits, unless these fill all limbs |
| BigNorm.IMul | miracl_core/big.cpp:452-463 | multiplying every limb in place, the operation that the lazy-carry machine runs |
| LazyCarry.StepTracked | miracl_core/big.cpp:356-463 | add, sub, imul and norm within the counters keep every limb between -MNV*(2^B-1) and MPV*(2^B-1) and every value exact |
| LazyCarry.RunTracked | miracl_core/big.cpp:356-463 | over any disciplined run no chunk overflows and each register denotes the exact integer result |
| LazyCarry.LimitIsTight | miracl_core/big.h:50 | at the limit limb plus carry is the largest chunk; one unit more and the value is lost |
| BigShift.ShrValue | miracl_core/big.cpp:925-935 | right shifts floor-divide by 2^k and keep the number normalised |
| BigShift.ShlValue | miracl_core/big.cpp:874-920 | left shifts multiply by 2^k when the result fits, and keep the number normalised |
| BigShift.ShlExcess | miracl_core/big.cpp:874-920 | a shift by less than a limb is exact up to twice the range, the excess staying in the top limb |
| BigShift.ShlCong | miracl_core/big.cpp:874-920 | when it does not fit, the result is right modulo 2^(B*N) and normalised below the top limb |
| BigShift.Shr | miracl_core/big.cpp:925-935 | the loop of BIG_shr in place, with its guard, is that shift |
| BigShift.DShr | miracl_core/big.cpp:978-987 | so is that of BIG_dshr, which has no guard, for k < B*2N |
| BigShift.Shl | miracl_core/big.cpp:874-888 | the loop of BIG_shl in place, with its guard, is that shift |
| BigShift.DShl | miracl_core/big.cpp:907-920 | so is that of BIG_dshl, which has no guard, for k < B*(2N-1) |
| BigShift.DoubleShiftInRange | miracl_core/big.cpp:907-987 | the limbs that BIG_dshr writes and BIG_dshl reads first exist if and only if k < B*2N and k < B*(2N-1) |
| BigShift.DoubleShiftOutOfRange | miracl_core/big.cpp:907-987 | an instance where they do not: two limbs of 56 bits, k = 224 and k = 168 |
| BigShift.FShr | miracl_core/big.cpp:966-974 | the fast right shift; it returns the bits shifted out, cut to an int, which keeps up to 31 of them |
| BigBits.Comp | miracl_core/big.cpp:1080-1103 | the branch-free comparison returns 1, 0 or -1 as the numbers compare |
| BigBits.NBits | miracl_core/big.cpp:1106-1143 | the bit length: the value lies below 2^n and, unless zero, at or above 2^(n-1) |
| BigBits.LastBits | miracl_core/big.cpp:1428-1433 | up to 30 low bits of the value, after normalising in place |
| BigDivide.DividingStep | miracl_core/big.cpp:1147-1165 | one conditional subtraction and halving keeps quotient*m + remainder = b, remainder < 2c and c = m*2^k |
| BigDivide.CtMod | miracl_core/big.cpp:1147-1165 | for 0 <= b < 2*m*2^bd, with b below twice the range and m*2^bd in range or, for bd < BASEBITS, below twice the range, the result is b mod m |
| BigDivide.CtDMod | miracl_core/big.cpp:1203-1220 | the same for a double number, when bd < B*(2N-1) |
| BigDivide.CtSDiv | miracl_core/big.cpp:1341-1370 | and the quotient b div m |
| BigDivide.CtDDiv | miracl_core/big.cpp:1264-1294 | and the quotient of a double number |
| BigDivide.BitDifference | miracl_core/big.cpp:1167-1173 | the difference of bit lengths always meets that bound |
| BigDivide.Mod | miracl_core/big.cpp:1167-1173 | BIG_mod returns b mod m for every b in range |
| BigDivide.DMod | miracl_core/big.cpp:1224-1230 | BIG_dmod returns b mod m when the difference of bit lengths is below B*(2N-1) |
| BigDivide.DModInRange | miracl_core/big.cpp:1203-1230 | the limb that BIG_dshl reads first exists if and only if the bit lengths differ by less than that |
| BigDivide.DModOutOfRange | miracl_core/big.cpp:1203-1230 | it does not for the largest double number modulo one |
| BigDivide.SDiv | miracl_core/big.cpp:1373-1379 | BIG_sdiv returns b div m |
| BigDivide.DDiv | miracl_core/big.cpp:1298-1304 | BIG_ddiv returns b div m when the difference of bit lengths is below B*N |
| BigDivide.DDivInRange | miracl_core/big.cpp:1264-1304 | the limb that receives the shifted one exists if and only if the bit lengths differ by less than B*N |
| BigDivide.DDivOutOfRange | miracl_core/big.cpp:1264-1304 | it does not for 2^(B*N+1) divided by 3, although the quotient fits |
| BigDivide.QuotientBits | miracl_core/big.cpp:1224-1304 | operands with 2*b < m*2^(B*n) differ by less than B*n bits: the condition of ddiv for n = N, of dmod for n = 2N-1 |
| BigModular.ProductRange | miracl_core/big.cpp:1498-1509 | the product of two residues meets the bound of ctdmod with bd = nbits(m) |
| BigModular.ModMul | miracl_core/big.cpp:1498-1509 | the result is a*b mod m |
| BigModular.ModAdd | miracl_core/big.cpp:1534-1543 | the result is a+b mod m for every m, also when the sum and 2*m exceed NLEN limbs |
| BigModular.ModNeg | miracl_core/big.cpp:1525-1531 | the result is congruent to -a, and reduced if and only if a is not a multiple of m |
| BigModular.NegatedMultiple | miracl_core/big.cpp:1525-1531 | an instance of what ModNeg computes: 6 modulo 3 gives 3, not 0 |
| BigInverse.HalfStep | miracl_core/big.cpp:1737-1752 | halving an even u and its cofactor keeps a*x1 = u (mod p), the ranges and gcd(u,v) = 1, and v is odd then |
| BigInverse.SubStep | miracl_core/big.cpp:1753-1768 | so does subtracting v from a larger u |
| BigInverse.Pass | miracl_core/big.cpp:1735-1769 | one pass of the outer loop keeps all of that, takes u and v where the loops on u and v alone take them, and decreases u+v |
| BigInverse.InvModP | miracl_core/big.cpp:1715-1772 | the loops end with r in [1,p) and a*r = 1 (mod p), or with 0 for a multiple of p |
| BigInverse.NoInverse | miracl_core/big.cpp:1711-1715 | when a shares a factor with p no inverse exists |
| BigInverse.CommonFactorStays | miracl_core/big.cpp:1735-1769 | after any number of steps of the loops an odd common factor of u and v is still there, so they have not stopped |
| BigInverse.EndsPass | miracl_core/big.cpp:1735-1769 | the steps of one pass lead from test to test as Pass says |
| BigInverse.EndsIfCoprime | miracl_core/big.cpp:1735-1769 | started from a residue a of an odd p, the loops end if and only if a is prime to p |
| BigInverse.NeverEnds | miracl_core/big.cpp:1735-1769 | for a = 3 and p = 9 they never end |
| BigInverse.ModDiv | miracl_core/big.cpp:1547-1559 | r*b = a (mod m), or 0 when b is a multiple of m |
| BigInverse2m.Doubling | miracl_core/big.cpp:1675-1704 | one step of the lifting: an inverse modulo P becomes one modulo any divisor of P*P, from terms known only modulo P or E |
| BigInverse2m.InvMod256 | miracl_core/big.cpp:1629-1665 | the base case: U*a = 1 (mod 256) for odd a, with U up to 277 |
| BigInverse2m.Mod2M | miracl_core/big.cpp:1776-1787 | masking in place reduces modulo 2^m, also for a number that is not normalised |
| BigInverse2m.Lift | miracl_core/big.cpp:1676-1704 | one pass of the loop doubles the bits known, up to the size of a BIG, although products and shifts overflow it |
| BigInverse2m.InvMod2M | miracl_core/big.cpp:1669-1709 | result*a = 1 (mod 2^BIGBITS) for every odd a, also when the last step overshoots BIGBITS |
| BigInverse2m.MaskInRange | miracl_core/big.cpp:1708-1708 | the limb masked at the end exists if and only if BIGBITS is not a multiple of BASEBITS |
| BigInverse2m.MaskOutOfRange | miracl_core/big.cpp:1708-1708 | an instance where it does not: 448 bits in limbs of 56 |
| BigJacobi.LawsHold | miracl_core/big.cpp:1561-1563 | the symbol computed by the factor-two and reciprocity rules obeys the laws for all arguments: values, periodicity, factor two, reciprocity |
| BigJacobi.Negating | miracl_core/big.cpp:1561-1563 | and the law of the factor minus one |
| BigJacobi.JacobiUnique | miracl_core/big.cpp:1561-1563 | and it is the only function that does |
| BigJacobi.SymbolOfResidue | miracl_core/big.cpp:1575-1576 | and the symbol of any integer is that of its residue |
| JacobiProduct.Multiplicative | miracl_core/big.cpp:1561-1563 | the symbol of a product is the product of the symbols, for all integers and every odd modulus |
| JacobiProduct.LowerMultiplicative | miracl_core/big.cpp:1561-1563 | and likewise in the lower argument |
| JacobiProduct.Squares | miracl_core/big.cpp:1561-1563 | so the square of anything prime to the modulus has symbol 1 |
| BigJacobi.ZeroMeansCommonFactor | miracl_core/big.cpp:1578-1580 | the symbol is 0 if and only if a and p share a factor |
| BigJacobi.Exponents | miracl_core/big.cpp:1582-1589 | the two increments of m have the parities of the factor-two and reciprocity signs |
| BigJacobi.Reciprocate | miracl_core/big.cpp:1578-1595 | one pass keeps n odd and the sign times the symbol, and decreases n |
| BigJacobi.JacobiOf | miracl_core/big.cpp:1563-1597 | the loop returns the symbol for every odd p > 1, and 0 for any other p |
| BigBytes.ReadWritten | miracl_core/big.cpp:146-172 | reading what was written gives the number modulo 256^n |
| BigBytes.WriteRead | miracl_core/big.cpp:146-172 | writing what was read gives the bytes back |
| BigBytes.ToBytes | miracl_core/big.cpp:146-157 | the big-endian bytes of any value, also a negative or an unnormalised one |
| BigBytes.FromBytes | miracl_core/big.cpp:160-172 | the integer the bytes denote, normalised |
| BigBytes.FromBytesLen | miracl_core/big.cpp:174-188 | the same for the first MODBYTES bytes of a longer string |
| BigBytes.DFromBytesLen | miracl_core/big.cpp:1791-1804 | the same into a double number |
| BigBytes.Split | miracl_core/big.cpp:992-1029 | b is d mod 2^n; t*2^n + b = d if and only if the top limb of t fits in a chunk |
| BigBytes.SplitLosesTop | miracl_core/big.cpp:992-1029 | an instance where it does not: limbs of 13 bits in chunks of 16 |
| FpResidue.ResidueStandsFor | miracl_core/fp.cpp:217-237 | the reduction y of x*R2modp is x*R^N modulo p, below 2p, and every reduction of y is x itself, for 0 <= x < p, also for 0 |
| FpResidue.NotReduced | miracl_core/fp.cpp:231-237 | a residue below 2p reduces to a number below p if and only if it is not p |
| FpResidue.Nres | miracl_core/fp.cpp:220-228 | FP_nres leaves a residue that stands for x, within its excess of 2 |
| FpResidue.Redc | miracl_core/fp.cpp:231-248 | FP_redc takes a residue that stands for x back to x, and any y below 2p to a number congruent to y/R^N |
| HashToField.SliceInRange | miracl_core/bls.cpp:51-60 | a slice of L bytes meets the bound of ctdmod with bd = 8L - nbq |
| HashToField.LongModulus | miracl_core/bls.cpp:51-61 | when q has more than BASEBITS bits, the shift by 8L - nbq stays in the double number |
| HashToField.Slices | miracl_core/bls.cpp:42-64 | element i is the Montgomery residue that stands for the big-endian integer of bytes [i*L, (i+1)*L) modulo q, with L of section 5.2 of RFC 9380 |
| StraightLine.RunAppend | miracl_core/config64.py:116-183 | running two emitted lists one after the other is running the first and then, unless it fails, the second |
| StraightWords.WordRunExact | miracl_core/config64.py:116-183 | a list whose intermediate values all stay in their types means the same on words as on integers, although the quotient product (chunk)t*MC wraps |
| GenMul.InlineMul2 | miracl_core/config64.py:116-134 | for every N >= 2 and every input the emitted list leaves the product's limbs in c and a, b untouched; on words, too, for normalised inputs |
| GenSqr.InlineSqr | miracl_core/config64.py:136-162 | for every N >= 2 the emitted list leaves the limbs of a*a; on words, too, for a normalised input |
| GenRedc.InlineRedc2 | miracl_core/config64.py:164-183 | for every N >= 2 the emitted list leaves the normalised Montgomery reduction of d, also on words, whatever v, dd and a held before |
| GenRedc.TopLimb | miracl_core/config64.py:182-182 | the last line, which masks the carry instead of the sum, stores the same limb as the loop |
| AesWord.PackRotl8 | miracl_core/aes.cpp:40-40 | the rotation of four bytes by one place is ROTL8 of the packed word |
| AesWord.PackRotl16 | miracl_core/aes.cpp:41-41 | by two places, ROTL16 |
| AesWord.PackRotl24 | miracl_core/aes.cpp:42-42 | by three places, ROTL24 |
| AesWord.UnpackedPacked | miracl_core/aes.cpp:225-238 | unpacking undoes packing |
| AesWord.PackXor | miracl_core/aes.cpp:223-229 | and exclusive or byte by byte is that of the packed words |
| AesCipher.InvMixLinear | miracl_core/aes.cpp:260-285 | InvMixCol, computed from logarithm tables and rotated coefficients, is linear |
| AesCipher.InvRoundUndoes | miracl_core/aes.cpp:454-479 | an inverse round with the transformed key undoes a round, up to the scrambling still to be undone |
| AesCipher.DecryptionUndoes | miracl_core/aes.cpp:368-506 | for every schedule, every block and any number of rounds, the equivalent inverse cipher undoes the cipher |
| AesTables.ConstantsFacts | miracl_core/aes.cpp:46-221 | the constant tables have the facts of the round theorem: inverse S-boxes, mixed tables, linear products, inverse mixing |
| AesTables.ConstantsSBox | miracl_core/aes.cpp:86-104 | every entry of fbsub is the affine transformation of the inverse of its index in the field (section 5.1.1 of FIPS 197) |
| AesField.SBoxUnique | miracl_core/aes.cpp:86-104 | which determines the S-box: inverses are unique, because a product is zero only if a factor is |
| AesTables.ConstantsUndone | miracl_core/aes.cpp:86-125 | fbsub undoes rbsub, too |
| AesTables.ConstantsMul | miracl_core/aes.cpp:241-246 | bmul by each coefficient of MixColumns and of its inverse is the product of the field, although it adds logarithms |
| AesTables.InverseEntry | miracl_core/aes.cpp:176-221 | each entry of rtable is the unmixed column of the inverse S-box entry |
| AesTables.ConstantsUnmix | miracl_core/aes.cpp:269-285 | InvMixCol undoes MixColumns on every column |
| Aes.LookupMixes | miracl_core/aes.cpp:387-402 | four lookups, rotations and the key are substitution, mixing and key addition |
| Aes.LookupUnmixes | miracl_core/aes.cpp:458-473 | and so are those of rtable |
| Aes.DecipherEncipher | miracl_core/aes.cpp:368-506 | on the sixteen bytes of a block, deciphering gives every block back |
| Aes.Context.EcbEncrypt | miracl_core/aes.cpp:368-434 | the loop with swapped state arrays leaves Encipher of the block, which is the cipher of section 5.1 of FIPS 197 (AesConforms.EncipherConforms) |
| Aes.Context.EcbDecrypt | miracl_core/aes.cpp:438-506 | and Decipher, which is the inverse cipher of section 5.3 (AesConforms.DecipherConforms) |
| Aes.LoadColumns | miracl_core/aes.cpp:373-377 | word c of the state is pack of bytes 4c to 4c+3 of the block (section 3.4 of FIPS 197), exclusive or the key |
| Aes.StoreColumns | miracl_core/aes.cpp:429-433 | and these bytes are stored from word c |
| AesConforms.EncipherConforms | miracl_core/aes.cpp:368-434 | for any tables with the field's products, any schedule and any number of rounds, the table lookups on words compute the cipher of section 5.1 on bytes |
| AesConforms.DecipherConforms | miracl_core/aes.cpp:438-506 | and, with the reversed schedule, the inverse cipher of section 5.3, which takes the keys in their own order |
| AesConforms.ScheduleConforms | miracl_core/aes.cpp:335-353 | the expanded words are, byte by byte, the key expansion of section 5.2 |
| AesProgram.ProgramExpansion | miracl_core/aes.cpp:311-364 | with the tables of the program, for every key, the schedule that AES_init leaves is the only expansion of section 5.2 for an S-box of section 5.1.1 |
| AesProgram.ProgramEnciphers | miracl_core/aes.cpp:368-434 | and AES_ecb_encrypt is the cipher with that expansion and that S-box |
| AesProgram.ProgramDeciphers | miracl_core/aes.cpp:438-506 | and AES_ecb_decrypt the inverse cipher |
| AesProgram.ProgramStandard | miracl_core/aes.cpp:46-221 | the program's own S-box, its inverse and its schedule satisfy these definitions |
| AesExample.Example | miracl_core/aes.cpp:311-506 | the example of appendix C.3 of FIPS 197 (2001), from the key to the block enciphered and deciphered |
| Aes.ExpandKey | miracl_core/aes.cpp:335-353 | the loops by groups of nk words follow the recurrence, for nk = 4, 6, 8 |
| Aes.ScheduleUnique | miracl_core/aes.cpp:335-353 | which determines every word |
| Aes.ScheduleWords | miracl_core/aes.cpp:331-353 | such a schedule has the words of the key first, bytes 4i to 4i+3 in word i, and then at each word the recurrence of section 5.2 of FIPS 197 |
| Aes.RoundConstants | miracl_core/aes.cpp:126-127 | each round constant is x times the one before |
| Aes.ReverseKeys | miracl_core/aes.cpp:356-362 | the decryption keys are the encryption keys reversed, the inner ones through InvMixCol |
| Aes.Context.Init | miracl_core/aes.cpp:311-364 | accepts exactly key lengths of 4, 6 or 8 words, changes nothing otherwise, and leaves the words of the key and of the recurrence, the reversed schedule and the register |
| Aes.Context.Reset | miracl_core/aes.cpp:289-301 | the register is the initial vector, byte for byte, if there is one and the mode is not ECB, and sixteen zeros otherwise |
| AesCounter.Increment | miracl_core/aes.cpp:509-517 | the loop with its early exit is the next register |
| AesCounter.NextByte | miracl_core/aes.cpp:509-517 | in which a byte counts up if and only if all bytes before it are 255, and others stay |
| AesCounter.NextCounts | miracl_core/aes.cpp:509-517 | which counts one more, modulo 2^128, least significant byte first |
| AesCounter.CountersDiffer | miracl_core/aes.cpp:509-517 | any two of 2^128 consecutive registers differ |
| AesModes.StepRoundTrip | miracl_core/aes.cpp:521-653 | in every mode one block comes back and the two registers agree |
| AesModes.RunRoundTrip | miracl_core/aes.cpp:521-653 | over any sequence of blocks every block comes back and the registers agree (sections 6.1 to 6.5 of NIST SP 800-38A) |
| AesModes.ModesRoundTrip | miracl_core/aes.cpp:521-653 | and so with the tables of the program, under every key and in every mode |
| AesModes.CountersInRun | miracl_core/aes.cpp:573-578 | in counter mode no two of at most 2^128 consecutive blocks use the same counter |
| AesModes.Encrypt | miracl_core/aes.cpp:521-583 | the call changes register and buffer as the step function does, of which the AesChaining lemmas say what runs compute, and nothing in an unsupported mode; it returns the bytes the register loses in the CFB modes, and 0 in others |
| AesModes.Decrypt | miracl_core/aes.cpp:587-653 | likewise |
| AesModes.ModeWidths | miracl_core/aes.cpp:544-573 | a call processes as many bytes as the name of its mode says, sixteen in ECB and CBC |
| AesChaining.EcbBlocks | miracl_core/aes.cpp:532-534 | in a run, each block is enciphered by itself, or deciphered |
| AesChaining.CbcEncrypts | miracl_core/aes.cpp:535-539 | each block is added byte by byte to the ciphertext block before it, or the register, and enciphered; the register ends as the last block (section 6.2 of NIST SP 800-38A) |
| AesChaining.CbcDecrypts | miracl_core/aes.cpp:600-612 | each byte is that of the deciphered block added to that of the ciphertext block before it, or the register |
| AesChaining.CfbRegister | miracl_core/aes.cpp:547-553 | before each block the register holds the last sixteen bytes of the initial one followed by the ciphertext so far (section 6.3) |
| AesChaining.CfbBytes | miracl_core/aes.cpp:541-554 | each byte is added to that of the enciphered register, in either direction |
| AesChaining.OfbBytes | miracl_core/aes.cpp:556-565 | each byte of block i is added to that of the initial register enciphered i+1 times (section 6.4) |
| AesChaining.CtrBytes | miracl_core/aes.cpp:567-578 | each byte of block i is added to that of the enciphered i-th counter (section 6.5) |
| AesModes.FellOffBytes | miracl_core/aes.cpp:544-545 | where plain char is unsigned, the value returned has the lost bytes in order, the first most significant |
| AesModes.FellOffSigned | miracl_core/aes.cpp:544-545 | where it is signed, the value is the same if and only if every lost byte above 127 is one of four and preceded by bytes of 255 only |
| AesModes.CharValues | miracl_core/aes.cpp:544-545 | where it is signed, a byte above 127 enters as itself less 256, modulo 2^32 |
| AesCbc.CbcRoundTrip | miracl_core/aes.cpp:667-760 | decrypting any number of encrypted blocks gives them back |
| AesCbc.UnpadPad | miracl_core/aes.cpp:701-704 | padding is always recognised, and removing it gives the message back (section 6.3 of RFC 5652) |
| AesMessages.PadBytes | miracl_core/aes.cpp:701-704 | a padded message is the message and then from one to sixteen bytes, up to whole blocks, that hold their number |
| AesMessages.PadUnpad | miracl_core/aes.cpp:748-752 | whole blocks are recognised as padded if and only if they are some padded message, and then of the message that is taken out |
| AesCbc.MessageRoundTrip | miracl_core/aes.cpp:667-760 | under every key, what encryption makes of any message is accepted and decrypts to that message |
| AesCbc.ProgramRoundTrip | miracl_core/aes.cpp:667-760 | and so with the tables of the program |
| AesMessages.EncodedFirst | miracl_core/aes.cpp:667-710 | the first block of the ciphertext is the first block of the padded message, enciphered: the register starts as zero |
| AesMessages.EncodedLater | miracl_core/aes.cpp:667-710 | each later one is its block of the padded message added to the ciphertext block before it, enciphered |
| AesMessages.DecodedFirst | miracl_core/aes.cpp:713-760 | each byte delivered in the first block is one of the first ciphertext block, deciphered |
| AesMessages.DecodedLater | miracl_core/aes.cpp:713-760 | each later one is that of its ciphertext block, deciphered, added to the ciphertext byte sixteen places before |
| AesMessages.DecodedLength | miracl_core/aes.cpp:713-760 | on acceptance the message delivered, padded, is as long as the ciphertext; on refusal all blocks before the one with the last byte are delivered |
| AesCbc.CbcIv0Encrypt | miracl_core/aes.cpp:667-710 | the loops write that encoding, as far as the output has room |
| AesCbc.CbcIv0Decrypt | miracl_core/aes.cpp:713-760 | the look-ahead loops return 1 if and only if the ciphertext is empty, or a multiple of 16 long with n bytes of value n at the end of the plaintext, 1 <= n <= 16; and deliver the bytes of the decoding, also on refusal, as far as there is room |

## Left out

- The printed text of the generators: variable names, spacing and casts; statements are values here.
- inline_mul1 and inline_redc1: the generators of the plain column forms, which the default build does not use; the loops they unroll are modelled.
- InlineRedc2: takes the size of the modulus and of d as the loop forms do, that is 2*md <= R and d < md*R.
- The configuration conditions under which the loops are exact are preconditions, as the headers choose the parameters to meet them: `Roomy` (a dchunk holds one and a half columns of products), `Spare` (two spare bits in a chunk besides the sign), and `MuladdReady` (`Spare` and, for the muladd on half words, an even BASEBITS). Every chunk is an even number of bits wide.
- InvModP: demands that a be a multiple of p or coprime to it, because the loops do not end otherwise (EndsIfCoprime).
- InvMod2M: demands that BIGBITS not be a multiple of BASEBITS, because a limb outside the array is masked otherwise.
- DDiv: demands a difference of bit lengths below B*N, because the shifted one does not fit otherwise (DDivInRange).
- DMod, CtDMod, DShl, DShr: demand a shift for which the double-length shifts stay in their array (DModInRange, DoubleShiftInRange); they are undefined otherwise.
- LastBits: at most 30 bits, because the mask (1 << n) - 1 is an int.
- Comp: compares normalised numbers only, as its callers guarantee; so JacobiOf takes a normalised a.
- CMove: the conditional move is written as a conditional, not as exclusive ors with a mask.
- FShl: the value that BIG_fshl returns, which only code outside this model uses.
- The DEBUG_NORM counters, which the build does not compile; LazyCarry states their rules as a discipline. BIG_dadd, whose counters follow those of subtraction, is not part of that discipline.
- Nres, Redc: the forms for a modulus of no special form; those for pseudo-Mersenne and Montgomery-friendly moduli reduce differently.
- The lazy field arithmetic on FP, the field extensions FP2 and up, elliptic curves and pairings: their files are not part of this model.
- Slices: the output of XMD_Expand is an arbitrary byte string, and 8L - nbq is below B*(2N-1), for BIG_dshl (LongModulus). The excess counter of each element is what Nres returns.
- The random number functions: they depend on a generator that is not part of this model.
- LawsHold, JacobiUnique: that symbol 1 modulo a prime makes a a square (the converse of Squares for primes) is not proved.
- The clearing of local copies of secret data after use (AES_end and the zeroing of state arrays), which no later call observes.
- CbcIv0Encrypt, CbcIv0Decrypt: a key of a length that AES_init refuses leaves the context unset, and such calls are not modelled. The buffers of the caller do not overlap.
- Timing and side channels, printing, and the per-size copies of the headers.
