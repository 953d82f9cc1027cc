# Verified models of the wbr1310 firmware

This project models five parts of the firmware in Dafny and proves what they promise.

**Multi-precision arithmetic** (`progs.gpl/hostapd-0.3.7/bn_*.c`). A BIGNUM is a sequence of 32-bit words, least
significant first, without leading zero words, and a sign; `Mag` is its absolute value and `Int` its value. The
word-level routines work on one memory array at offsets, as the C code works through pointers, and `Num(m, p, n)` is the
number in the `n` words at `p`. Every routine is proved equal to integer arithmetic: carry chains, schoolbook and
Karatsuba products and squares, Knuth division with its digit estimate, greatest common divisors, both inversion
loops, Montgomery reduction, division by a cached reciprocal, and the four modular exponentiations. The proofs build
on each other: exponentiation uses reduction, which uses the word inverse, which uses inversion, which uses division,
which uses the half-word division of a double word. The configuration is the one the repository ships
(`openssl/opensslconf.h`: 32-bit words, `BN_LLONG`).

**Dependency expressions of the configuration language** (`config/config/expr.c`, `symbol.c`). Expressions take the values
n, m and y. The equality test by cancellation, the removal of constants, the normal form, the extraction of common
operands and the elimination of duplicates are functions; each is proved to terminate and to keep the value, and
`expr_eliminate_dups` to keep every value but m. `sym_check_deps` is proved to report exactly the reachable cycles.

**Allocator and event loop** (`comlib/mem_helper.c`, `comlib/sloop.c`, `include/dlist.h`). The list primitives are proved
on pointers, and so is the pair of lists, free and used, that both programs keep. Above them a list is the sequence of
its entries. The class invariants hold after every sequence of calls: free and used blocks partition what was carved,
counters agree, live blocks do not overlap; timers stay ordered, none fires early or twice, due ones fire in order, and no slot is lost.

**EAP authenticator** (`progs.gpl/hostapd-0.3.7/eap.c`). A class with the fields of `struct eap_sm` and one method per state entry.
The answers of the callbacks of an EAP method, of the user database and of the random number generator are parameters
of the entries or chosen freely by `eap_sm_step`. A ghost trace records what the machine does. The invariant says that success is declared only for a method that earned it and said so, and how
the identifiers of requests follow each other. Every call of `eap_sm_step` ends; whether it ends by following a null pointer, or by
reading past the end of a response, is decided exactly from the state before the call.

**Block-cipher modes and MD5** (`aes_wrap.c`, `gen_md5.c`). The block cipher is any permutation with its inverse, the
compression function any function. Key wrap, OMAC1, CTR, EAX and CBC are proved against RFC 3394, RFC 4493 and their own inverses; the
streaming interface of MD5 against the hash of the whole message.

Where a comment of the source and its code disagree, the model follows the code: `bn_mul_recursive` needs 4 * n2
words of scratch space at `t` when it recurses into itself for the middle product, twice what the comment above it says.

## Results that qualify a promise

- `BN_nnmod` returns |d| instead of 0 for the dividend "minus zero", and only for it (`Divide.NNMod`).
- A zero exponent gives 1 for every modulus; this is a^p mod |m| exactly unless |m| = 1 (`Exponent.ModExpMeaning`).
- `expr_eliminate_dups` may change an expression that holds m: it makes n of (A || B) && (!A && !B) and y of (A && B) || (!A || !B) (`LostMod.ModIsLost`); it changes no other
  (`Duplicates.EliminateDups`); an expression over symbols that do not hold m never holds m (`Duplicates.NoModValue`).
- `expr_trans_bool` keeps "differs from n" where no test of a tristate symbol stands below a NOT (`Normalise.TransBoolKeepsTruth`), as in
  every normal form (`Normalise.NormalTests`), but not below one (`Normalise.TransBoolUnderNot`).
- `BN_add_word` and `BN_sub_word` leave a zero top word for zero and the zero word, and only for them (`Product.AddWord`).
- `eap_sm_step` follows a null pointer exactly if a response with the current identifier and type is due while there is no
  method (`Eap.EapSm.StepAll`). That happens only if the method proposed last could not be set up, as when its init callback fails;
  then a response without a type matches (`Eap.EapSm.FailedInit`, `Eap.HaltingInput`). A run in which every proposed method
  could be set up never does it (`Eap.EapSm.Run`).
- `eap_sm_step` reads past the end of the response exactly if it comes to process a Nak whose length field is below 5, so that the length
  of its list wraps around, and a method of the user that is still to be tried is not among the bytes of the response
  (`Eap.EapSm.StepAll`, `Eap.ProcessNak`; an input in `Eap.EapSm.ShortNakReceived`). A run that is given no such Nak never does it
  (`Eap.EapSm.Run`).
- An identifier of an EAP request repeats the one used before exactly when it follows an identifier taken over from a
  response that is one below it (`Eap.NextId`); without a back end server this does not happen. A request that is sent repeats the
  identifier sent before only if a request in between could not be built (`Eap.RepeatedIdentifier`), and then every
  identifier can repeat (`Eap.RepeatAfterLoss`). Without a start in between it does so exactly after a multiple of 256 identifiers
  (`Eap.RepeatExactly`); after a start every identifier but the last can follow (`Eap.AnyFollows`).
- A timer handler that cancels its own timer and registers another one in the same slot loses the new one, and nothing
  else loses a registration (`Sloop.EventLoop.CheckTimeout`, shown in `Sloop.EventLoop.CancelOwnAndRegister`).
- The counter of `aes_wrap` is that of RFC 3394 exactly while it is below 256 (`KeyWrap.CounterFits`).
- A failed `mh_realloc` of a block that has to grow frees the block (`Allocator.MemHelper.Realloc`).

## Model

| member | source | states |
|---|---|---|
| Words.MulAddWords | progs.gpl/hostapd-0.3.7/bn_asm.c:71-94 | the words and the returned carry hold r + a * w; nothing else changes |
| Words.MulWords | progs.gpl/hostapd-0.3.7/bn_asm.c:96-118 | the words and the returned carry hold a * w |
| Words.AddWords | progs.gpl/hostapd-0.3.7/bn_asm.c:299-333 | the words and the carry hold a + b |
| Words.SubWords | progs.gpl/hostapd-0.3.7/bn_asm.c:385-420 | the words plus b are a plus the borrow |
| Words.CmpWords | progs.gpl/hostapd-0.3.7/bn_lib.c:779-794 | -1, 0 or 1 as the numbers compare |
| Words.RippleAdd | progs.gpl/hostapd-0.3.7/bn_mont.c:164-173 | a carry added to a window whose sum fits dies inside the window |
| WordDivision.Mul64 | progs.gpl/hostapd-0.3.7/bn_lcl.h:361-377 | the product of two words from four half-word products |
| WordDivision.TrialDigit | progs.gpl/hostapd-0.3.7/bn_asm.c:255-273 | the corrected trial digit is the exact half-word quotient |
| WordDivision.HalfRound | progs.gpl/hostapd-0.3.7/bn_asm.c:255-285 | one round removes the exact half-word digit |
| WordDivision.NoBorrow | progs.gpl/hostapd-0.3.7/bn_asm.c:274-285 | the subtraction never borrows, so the add-back of bn_div_words is never taken |
| WordDivision.DivWords | progs.gpl/hostapd-0.3.7/bn_asm.c:232-295 | the quotient of a double word by a word, normalised first; all ones for a zero divisor |
| Limbs.FixTop | progs.gpl/hostapd-0.3.7/openssl/bn.h:466-473 | leading zero words go, the value stays |
| Multiply.MulNormal | progs.gpl/hostapd-0.3.7/bn_mul.c:746-780 | the schoolbook product |
| Multiply.MulRecursive | progs.gpl/hostapd-0.3.7/bn_mul.c:77-219 | Karatsuba writes the same product, for every power of two, inside r and 4 * n2 words of t |
| Multiply.SameWords | progs.gpl/hostapd-0.3.7/bn_mul.c:77-219 | a product has one representation in n words, so Karatsuba and schoolbook write the same words |
| Multiply.MiddleTerm | progs.gpl/hostapd-0.3.7/bn_mul.c:182-192 | the combined carry of the middle term is 0, 1 or 2 |
| Multiply.AddMiddle | progs.gpl/hostapd-0.3.7/bn_mul.c:199-218 | adding the middle term completes the product and its ripple stays inside r |
| Multiply.Karatsuba | progs.gpl/hostapd-0.3.7/bn_mul.c:77-219 | the identity behind the three half-size products |
| Multiply.SqrNormal | progs.gpl/hostapd-0.3.7/bn_sqr.c:152-187 | twice the mixed products plus the squares is the square |
| Multiply.SqrRecursive | progs.gpl/hostapd-0.3.7/bn_sqr.c:200-287 | the recursive square is the square, for every power of two |
| BigNum.UCmp | progs.gpl/hostapd-0.3.7/bn_lib.c:656-676 | comparison of absolute values |
| BigNum.SetWord | progs.gpl/hostapd-0.3.7/bn_lib.c:577-602 | the value is the word |
| BigNum.UAdd | progs.gpl/hostapd-0.3.7/bn_add.c:107-165 | sum of absolute values |
| BigNum.USub | progs.gpl/hostapd-0.3.7/bn_add.c:168-258 | difference of absolute values, for the larger minus the smaller |
| BigNum.Add | progs.gpl/hostapd-0.3.7/bn_add.c:64-104 | signed sum |
| BigNum.Sub | progs.gpl/hostapd-0.3.7/bn_add.c:260-308 | signed difference |
| Shift.NumBitsWord | progs.gpl/hostapd-0.3.7/bn_lib.c:160-245 | the bit length of a word |
| Shift.NumBits | progs.gpl/hostapd-0.3.7/bn_lib.c:247-259 | the bit length |
| Shift.IsBitSet | progs.gpl/hostapd-0.3.7/bn_lib.c:750-759 | bit n of the absolute value |
| Shift.SetBit | progs.gpl/hostapd-0.3.7/bn_lib.c:719-735 | setting bit n of zero gives 2^n |
| Shift.LShift1 | progs.gpl/hostapd-0.3.7/bn_shift.c:63-93 | doubling |
| Shift.RShift1 | progs.gpl/hostapd-0.3.7/bn_shift.c:95-122 | halving, rounded down |
| Shift.LShift | progs.gpl/hostapd-0.3.7/bn_shift.c:124-154 | multiplication by 2^n |
| Shift.RShift | progs.gpl/hostapd-0.3.7/bn_shift.c:156-205 | division by 2^n, rounded down |
| Product.Mul | progs.gpl/hostapd-0.3.7/bn_mul.c:611-744 | the signed product |
| Product.Sqr | progs.gpl/hostapd-0.3.7/bn_sqr.c:65-149 | the square |
| Product.MulWord | progs.gpl/hostapd-0.3.7/bn_word.c:181-201 | product with a word |
| Product.AddWord | progs.gpl/hostapd-0.3.7/bn_word.c:108-140 | sum with a word, for both signs; a zero top word exactly for zero and the zero word |
| Product.SubWord | progs.gpl/hostapd-0.3.7/bn_word.c:142-179 | difference with a word, for both signs; a zero top word exactly for zero and the zero word |
| Divide.EstimateDigit | progs.gpl/hostapd-0.3.7/bn_div.c:276-309 | the estimate is the quotient of the leading three words by the leading two |
| Divide.EqualLeadingWords | progs.gpl/hostapd-0.3.7/bn_div.c:274-275 | with equal leading words the largest digit is at most one too large |
| Divide.ChooseDigit | progs.gpl/hostapd-0.3.7/bn_div.c:272-345 | the digit is never too small and at most one too large |
| Divide.DigitStep | progs.gpl/hostapd-0.3.7/bn_div.c:348-367 | subtraction and at most one add-back leave the exact digit and a remainder below the divisor |
| Divide.DivideWords | progs.gpl/hostapd-0.3.7/bn_div.c:226-369 | the digits and the remainder of the whole window |
| Divide.Div | progs.gpl/hostapd-0.3.7/bn_div.c:179-385 | truncating division for every signed pair; only a zero divisor fails |
| Divide.NNMod | progs.gpl/hostapd-0.3.7/bn_mod.c:127-138 | congruent, non-negative and below the modulus except for a dividend of minus zero |
| Inverse.Euclid | progs.gpl/hostapd-0.3.7/bn_gcd.c:146-200 | the binary algorithm ends with the greatest common divisor |
| Inverse.Gcd | progs.gpl/hostapd-0.3.7/bn_gcd.c:117-144 | the divisors of the result are the common divisors of the arguments |
| Inverse.HalveOut | progs.gpl/hostapd-0.3.7/bn_gcd.c:264-283 | all factors 2 leave B, and X is divided by the same power modulo n |
| Inverse.BinaryInverse | progs.gpl/hostapd-0.3.7/bn_gcd.c:247-331 | the binary loop keeps both congruences and ends with B = 0 |
| Inverse.SmallQuotient | progs.gpl/hostapd-0.3.7/bn_gcd.c:346-385 | quotient and remainder, also where bit lengths decide for 1, 2 or 3 |
| Inverse.GeneralInverse | progs.gpl/hostapd-0.3.7/bn_gcd.c:333-451 | the general loop keeps both congruences and ends with B = 0 |
| Inverse.ModInverse | progs.gpl/hostapd-0.3.7/bn_gcd.c:204-490 | an inverse in [0, n) is returned exactly when a and n are coprime |
| Montgomery.ReduceWord | progs.gpl/hostapd-0.3.7/bn_mont.c:162-173 | one round adds the multiple of N that clears the word, inside the window |
| Montgomery.ReduceWords | progs.gpl/hostapd-0.3.7/bn_mont.c:146-174 | all rounds divide a plus a multiple of N by 2^ri without leaving nl + al + 1 words |
| Montgomery.WordInverse | progs.gpl/hostapd-0.3.7/bn_mont.c:285-311 | n0 with n0 * N = -1 modulo the word size, also for N = 1 modulo it; fails for even N only |
| Montgomery.MontCtx.Set | progs.gpl/hostapd-0.3.7/bn_mont.c:270-336 | the context is valid exactly for odd moduli |
| Montgomery.MontCtx.FromMontgomery | progs.gpl/hostapd-0.3.7/bn_mont.c:99-235 | r in [0, N) with r * 2^ri = a modulo N, for a below N * 2^ri |
| Montgomery.MontCtx.MulMontgomery | progs.gpl/hostapd-0.3.7/bn_mont.c:72-97 | the reduction of the product |
| Montgomery.MontCtx.ToMontgomery | progs.gpl/hostapd-0.3.7/openssl/bn.h:430-431 | the Montgomery form, also of unreduced arguments |
| Montgomery.MontCtx.OutOfForm | progs.gpl/hostapd-0.3.7/bn_mont.c:99-235 | reducing a Montgomery form gives back the residue: the inverse of the conversion |
| Montgomery.RedcUnique | progs.gpl/hostapd-0.3.7/bn_mont.c:99-235 | for odd N there is only one reduction |
| Reciprocal.FindReciprocal | progs.gpl/hostapd-0.3.7/bn_recp.c:214-230 | the quotient 2^len / m, or -1 for m = 0 |
| Reciprocal.QuotientEstimate | progs.gpl/hostapd-0.3.7/bn_recp.c:173-185 | the estimate is not too large, and less than four too small |
| Reciprocal.RecpCtx.Set | progs.gpl/hostapd-0.3.7/bn_recp.c:94-101 | the cache is empty and valid |
| Reciprocal.RecpCtx.Correct | progs.gpl/hostapd-0.3.7/bn_recp.c:187-199 | at most three corrections, so the BAD_RECIPROCAL error is left to N = 0 |
| Reciprocal.RecpCtx.DivRecp | progs.gpl/hostapd-0.3.7/bn_recp.c:129-207 | the same division as BN_div, whatever the cache holds, and the cache stays valid |
| Exponent.ModMul | progs.gpl/hostapd-0.3.7/bn_mod.c:178-199 | the product modulo the absolute value of m |
| Exponent.Multiply | progs.gpl/hostapd-0.3.7/bn_recp.c:103-127 | the multiplication of residues or forms, for each of the three arithmetics |
| Exponent.FillTable | progs.gpl/hostapd-0.3.7/bn_exp.c:271-284 | the table holds the odd powers and has room for them |
| Exponent.FindWindow | progs.gpl/hostapd-0.3.7/bn_exp.c:306-322 | the window ends on a set bit and wvalue is its odd value |
| Exponent.TableEntry | progs.gpl/hostapd-0.3.7/bn_exp.c:334-336 | wvalue selects a filled entry of the table |
| Exponent.SlidingWindow | progs.gpl/hostapd-0.3.7/bn_exp.c:286-343 | r is a power by the exponent bits consumed so far, and at the end by all |
| Exponent.ModExpSimple | progs.gpl/hostapd-0.3.7/bn_exp.c:638-746 | a^p mod m for all signs |
| Exponent.ModExpRecp | progs.gpl/hostapd-0.3.7/bn_exp.c:228-351 | a^p mod m for all signs |
| Exponent.ModExpMont | progs.gpl/hostapd-0.3.7/bn_exp.c:354-494 | a^p mod m for odd m; even m is refused |
| Exponent.ModExpMontWith | progs.gpl/hostapd-0.3.7/bn_exp.c:388-487 | the same with a context of the caller |
| Exponent.OverflowTest | progs.gpl/hostapd-0.3.7/bn_exp.c:566-567 | dividing back detects word overflow exactly |
| Exponent.SquareAccumulator | progs.gpl/hostapd-0.3.7/bn_exp.c:565-584 | the product r * w is squared, overflow or not |
| Exponent.MultiplyAccumulator | progs.gpl/hostapd-0.3.7/bn_exp.c:586-604 | the product r * w is multiplied by a, overflow or not |
| Exponent.PowerOfWord | progs.gpl/hostapd-0.3.7/bn_exp.c:557-628 | r * w stands for the power by the bits consumed, and at the end the result is a^p mod m |
| Exponent.ModExpMontWord | progs.gpl/hostapd-0.3.7/bn_exp.c:496-634 | a^p mod m for odd m and a word a |
| Exponent.ModExp | progs.gpl/hostapd-0.3.7/bn_exp.c:154-225 | a^p mod m for every m that is not zero |
| Exponent.ModExpMeaning | progs.gpl/hostapd-0.3.7/bn_exp.c:374-378 | the result is a^p mod m exactly unless p = 0 and m = 1 |
| Kconfig.EliminateYn | config/config/expr.c:235-316 | removing constants never makes an expression larger |
| Kconfig.EliminateYnKeepsValue | config/config/expr.c:235-316 | the value is kept under every assignment |
| Kconfig.EliminateYnShrinks | config/config/expr.c:235-316 | an operand y or n makes it strictly smaller, and none is left |
| Kconfig.CancelEq | config/config/expr.c:135-166 | cancelling terminates and makes no side larger |
| Kconfig.CancelEqFactors | config/config/expr.c:135-166 | each side is one and the same common part combined with what is left |
| Kconfig.EliminateEqSound | config/config/expr.c:168-188 | equal remainders mean equal sides |
| Kconfig.ExprEqSound | config/config/expr.c:193-233 | expressions taken for equal have equal values under every assignment |
| Kconfig.SameSingle | config/config/expr.c:193-233 | without OR and AND, equality is identity |
| Kconfig.SwappedOperands | config/config/expr.c:135-233 | two operands in the other order are recognised as equal |
| Normalise.Transform | config/config/expr.c:640-775 | terminates by a weight it never raises |
| Normalise.TransformKeepsValue | config/config/expr.c:640-775 | the value is kept under every assignment |
| Normalise.TransformNormal | config/config/expr.c:640-775 | NOT is left only above symbols other than y, m and n |
| Normalise.TransformRemovesTests | config/config/expr.c:640-775 | no comparison of a boolean symbol with y, m or n is left |
| Normalise.TransBoolKeepsTruth | config/config/expr.c:321-345 | where no test of a tristate stands below a NOT, whether the value differs from n is kept |
| Normalise.NormalTests | config/config/expr.c:321-345 | normal forms are like this |
| Normalise.TransBoolRemovesTests | config/config/expr.c:321-345 | no comparison of a tristate symbol with n is left, and nothing else is changed |
| Normalise.TransBoolUnderNot | config/config/expr.c:321-345 | below a NOT it is not kept |
| Simplify.JoinOrSound | config/config/expr.c:350-412 | the joined expression has the value of the disjunction |
| Simplify.JoinAndSound | config/config/expr.c:414-506 | the joined expression has the value of the conjunction |
| Simplify.ThirdValue | config/config/expr.c:378-398 | two tests of a tristate symbol are joined to one of the third value, in every order |
| Simplify.SimpleJoins | config/config/expr.c:355-403 | equal operands are joined, and a boolean symbol with its negation |
| Simplify.SymbolJoins | config/config/expr.c:443-457 | a symbol joined with a test of itself, in both orders |
| Simplify.TestJoins | config/config/expr.c:460-475 | an equality joined with an inequality of the same tristate symbol, in both orders |
| Simplify.JoinShape | config/config/expr.c:508-558 | a join with its constant is no larger than its operands |
| Simplify.ExtractEqFactors | config/config/expr.c:852-879 | what is extracted is a common factor of both sides, and exactly that |
| Simplify.ExtractFactors | config/config/expr.c:830-850 | the same after the constants are removed |
| Simplify.ExtractCommon | config/config/expr.c:830-879 | a common operand of two pairs is extracted and the other operands are left, for both operators |
| Duplicates.Dups1 | config/config/expr.c:508-558 | terminates; the spine stays, nothing grows, a counted rewrite leaves a constant to remove |
| Duplicates.Dups1KeepsValue | config/config/expr.c:508-558 | the value is kept under every assignment |
| Duplicates.Dups1Complete | config/config/expr.c:508-558 | a pass that counts nothing has tried every pair of operands in vain |
| Duplicates.Dups1Idle | config/config/expr.c:508-558 | conversely, if no pair can be joined and no operand changes by itself, the pass changes and counts nothing |
| Duplicates.Dups2 | config/config/expr.c:560-614 | terminates, with the same shape guarantees |
| Duplicates.Dups2Keeps | config/config/expr.c:560-614 | every value but m is kept under every assignment |
| Duplicates.Dups2Idle | config/config/expr.c:560-614 | the pass changes nothing where no operand is a junction of the other operator |
| Duplicates.Round | config/config/expr.c:623-634 | a round that counts nothing changes nothing; one that counts leaves a constant |
| Duplicates.EliminateDups | config/config/expr.c:616-638 | terminates with the fixpoint of the rounds; every value but m is kept; no rewrite applies to the result and no two of its operands can be joined |
| Duplicates.NoModValue | config/config/expr.h:48-50 | an expression over symbols that do not hold m does not hold m |
| LostMod.ModIsLost | config/config/expr.c:560-638 | concrete expressions that hold m and that expr_eliminate_dups rewrites to n and to y |
| LostMod.ClashReduced | config/config/expr.c:560-638 | for any two symbols, an operand and the negation of all its parts become the constant of the operator |
| Dependencies.SymbolTable.CheckExprDeps | config/config/symbol.c:692-720 | reports a cycle exactly if some symbol of the expression has one, flags restored |
| Dependencies.SymbolTable.CheckDeps | config/config/symbol.c:722-756 | terminates; reports exactly if a walk from the symbol returns to itself or the path; the symbol is marked as checked, the path flags are restored |
| Dependencies.StepBack | config/config/symbol.c:722-756 | a returning walk of a successor makes one of the symbol |
| Dependencies.StepOn | config/config/symbol.c:722-756 | without one among the successors there is none |
| Dependencies.ReportedCycle | config/config/symbol.c:722-756 | the symbol reported lies on a cycle reachable from the start |
| Dependencies.SymbolsOccur | config/config/symbol.c:692-720 | the symbols visited in an expression are exactly those that occur in it |
| Dependencies.EdgesExactly | config/config/symbol.c:734-749 | a symbol depends on exactly the symbols that occur in its reverse dependency, in the condition of a property other than choice and select, or in the value of a default of a symbol that is not a choice |
| Dependencies.MutualCycle | config/config/symbol.c:722-756 | two symbols that depend on each other through any such properties are cyclic |
| Dependencies.MutualPrompts | config/config/symbol.c:722-756 | two symbols whose prompts depend on each other are reported |
| Dlist.AddBetween | include/dlist.h:28-34 | the entry is linked in both ways at its place, the rest of the ring stays |
| Dlist.Add | include/dlist.h:58-61 | the entry becomes the first |
| Dlist.AddTail | include/dlist.h:70-73 | the entry becomes the last |
| Dlist.Del | include/dlist.h:79-84 | the ring without the entry, whose links are cleared |
| Dlist.Empty | include/dlist.h:98-101 | true exactly for the empty list |
| Dlist.Contains | comlib/mem_helper.c:333-343 | the walk finds the entry exactly if it is on the list |
| ListPair.TwoLists.Unlink | include/dlist.h:79-84 | an entry leaves whichever of the two rings it is on, the other ring stays |
| ListPair.TwoLists.Use | comlib/sloop.c:354-369 | an entry is linked into the used ring at its place |
| ListPair.TwoLists.Acquire | comlib/sloop.c:126-141 | the first entry of the free ring, or nothing exactly if it is empty |
| ListPair.TwoLists.Release | comlib/sloop.c:381-386 | an entry of either ring becomes the first of the free ring |
| Allocator.MemHelper.AllocMemblk | comlib/mem_helper.c:248-299 | exactly if the system grants memory apart from all other, INCREASE new blocks are appended to the free list; otherwise nothing changes |
| Allocator.MemHelper.Memalloc | comlib/mem_helper.c:302-331 | fails exactly if no block is free and the system grants none; else the first free block, or the first of the new ones, goes to the front of the used list; all invariants kept |
| Allocator.MemHelper.Memfree | comlib/mem_helper.c:345-366 | a live block goes to the front of the free list; nothing changes for a block not in use |
| Allocator.MemHelper.Malloc | comlib/mem_helper.c:395-422 | nothing exactly if no class that fits has a free block or is granted one; else a block of the smallest class that has or gets one, the first of its free list, which was not in use |
| Allocator.MemHelper.Free | comlib/mem_helper.c:453-462 | frees a live block; a second free, a foreign and a null pointer change nothing |
| Allocator.MemHelper.Realloc | comlib/mem_helper.c:464-497 | keeps the block if it is large enough, otherwise moves its whole contents; the old block is freed also on failure; fails exactly where mh_malloc does |
| Allocator.TakeFirst | comlib/mem_helper.c:314-322 | taking a free block keeps free and used a partition |
| Allocator.GiveBack | comlib/mem_helper.c:352-360 | giving one back keeps them a partition |
| Allocator.Grown | comlib/mem_helper.c:217-243 | free + used = count * increase holds again after a super block |
| Allocator.DataApart | comlib/mem_helper.c:248-299 | the data of two blocks never overlap |
| Allocator.TooLarge | comlib/mem_helper.c:406-421 | sizes above the largest class are refused whatever the system grants |
| Allocator.ZeroRefused | comlib/mem_helper.c:406-421 | so is size 0 |
| Sloop.EarlierIsLess | comlib/sloop.c:366-366 | the comparison of normalised times is that of the instants |
| Sloop.Queued | comlib/sloop.c:354-369 | a registration keeps the queue ordered, first come first served on equal deadlines, and the slots complete |
| Sloop.EventLoop.Register | comlib/sloop.c:328-373 | the deadline, the place in the queue and the slot taken; fails exactly when no slot is free |
| Sloop.EventLoop.Cancel | comlib/sloop.c:376-386 | the timer leaves the queue and its slot is the first free one; a timer that has fired or was cancelled is put in front of the free slots again |
| Sloop.EventLoop.CancelAll | comlib/sloop.c:387-397 | the queue is empty and every slot is free |
| Sloop.EventLoop.WaitTime | comlib/sloop.c:421-445 | the time to the first deadline, zero when it has passed |
| Sloop.EventLoop.CheckTimeout | comlib/sloop.c:530-552 | the handler of the first timer runs exactly if it still is the first and its deadline has passed, whatever the handler does; exactly when a registration is lost |
| Sloop.LostInSlot | comlib/sloop.c:543-545 | freeing the slot after the handler loses a registration exactly if the slot holds another one |
| Sloop.EventLoop.CancelOwnAndRegister | comlib/sloop.c:543-545 | a handler that cancels its own timer and registers another one loses it |
| Sloop.EventLoop.Perform | comlib/sloop.c:328-398 | each of the three calls has its effect on queue and promises |
| Sloop.EventLoop.AnyCalls | comlib/sloop.c:328-398 | any sequence of registrations and cancellations, of any handle, keeps the invariants |
| Sloop.EventLoop.Round | comlib/sloop.c:413-606 | a timer fires exactly if the timer that was first before the wait still is the first after the signal handlers and its deadline has passed; which one, and that the invariants are kept, with any calls by handlers |
| Sloop.EventLoop.Run | comlib/sloop.c:400-606 | in every run timers stay ordered, none fires early or twice, 128 slots are accounted for, and the firings are those of the rounds that fired |
| Sloop.EventLoop.Drain | comlib/sloop.c:413-606 | timers that are all due fire one each round, in the order of the queue, until none is left |
| Eap.ParseResp | progs.gpl/hostapd-0.3.7/eap.c:612-644 | identifier and type are bytes, or none for a short or truncated packet |
| Eap.ParsePacket | progs.gpl/hostapd-0.3.7/eap.c:612-644 | a packet of the given code, identifier, type and list is parsed to just these, whatever follows it |
| Eap.ParseNothing | progs.gpl/hostapd-0.3.7/eap.c:612-644 | no identifier exactly for a missing, short or truncated packet |
| Eap.ProcessNak | progs.gpl/hostapd-0.3.7/eap.c:694-728 | the methods from the current index on that the peer listed, in order, empty entries behind; a list without an end is left exactly if some method is not in it |
| Eap.KeptExactly | progs.gpl/hostapd-0.3.7/eap.c:694-728 | the methods left are exactly those of the user that the peer listed, each as often and in the same order |
| Eap.KeptAreListed | progs.gpl/hostapd-0.3.7/eap.c:694-728 | every method that can still be proposed was configured and listed |
| Eap.NextId | progs.gpl/hostapd-0.3.7/eap.c:681-691 | when exactly the new identifier is the last one |
| Eap.EapSm.EnterInitialize | progs.gpl/hostapd-0.3.7/eap.c:203-235 | clears the results and the request for a restart |
| Eap.EapSm.EnterPickUpMethod | progs.gpl/hostapd-0.3.7/eap.c:238-263 | an exchange is picked up exactly if it is the identity exchange, has a pick-up callback and can be started |
| Eap.EapSm.EnterReceived | progs.gpl/hostapd-0.3.7/eap.c:285-291 | the response is parsed |
| Eap.EapSm.EnterDiscard | progs.gpl/hostapd-0.3.7/eap.c:294-299 | the response is given up and no request follows |
| Eap.EapSm.EnterSendRequest | progs.gpl/hostapd-0.3.7/eap.c:302-322 | a request is signalled and sent exactly if one was built |
| Eap.EapSm.EnterIntegrityCheck | progs.gpl/hostapd-0.3.7/eap.c:325-333 | the answer of the check callback, recorded with type and identifier of request and response; without a method the machine halts |
| Eap.EapSm.EnterMethodRequest | progs.gpl/hostapd-0.3.7/eap.c:336-356 | the next identifier, which without a back end differs from the one used before, and whether the request was built |
| Eap.EapSm.EnterMethodResponse | progs.gpl/hostapd-0.3.7/eap.c:359-379 | only a checked response is processed, except when an identity exchange is picked up; the method ends exactly if its isDone callback says so, and then the key is taken |
| Eap.EapSm.EnterProposeMethod | progs.gpl/hostapd-0.3.7/eap.c:382-406 | which method is proposed, whether it is present, and whether it may be refused by a Nak |
| Eap.EapSm.EnterNak | progs.gpl/hostapd-0.3.7/eap.c:409-437 | the method is dropped and the user's methods are cut to the listed ones, unless phase 2 has begun; exactly when this reads past the end of the response |
| Eap.EapSm.EnterSelectAction | progs.gpl/hostapd-0.3.7/eap.c:440-445 | success exactly if a method other than Identity says that it succeeded, which is recorded, and only after a processed response; exactly when another method is tried |
| Eap.EapSm.GetNextMethod | progs.gpl/hostapd-0.3.7/eap.c:747-770 | identity first, then the configured methods in order |
| Eap.EapSm.RemainingMethods | progs.gpl/hostapd-0.3.7/eap.c:747-770 | the proposals that follow are the configured methods from the index on, in order, up to the first empty entry |
| Eap.EapSm.GetDecision | progs.gpl/hostapd-0.3.7/eap.c:773-816 | exactly when the decision is success, and exactly when to continue; what becomes of the user entry |
| Eap.EapSm.EnterSuccess | progs.gpl/hostapd-0.3.7/eap.c:476-496 | success is declared only where the trace justifies it |
| Eap.TargetExactly | progs.gpl/hostapd-0.3.7/eap.c:499-598 | for each state the exact condition under which it is the next one |
| Eap.EapSm.Step | progs.gpl/hostapd-0.3.7/eap.c:499-598 | one transition follows the table, keeps the invariant and lowers the rank; it halts exactly on entering the integrity check without a method and overruns exactly on entering NAK with such a Nak; eapSuccess is set only with the recorded success |
| Eap.EapSm.StepAll | progs.gpl/hostapd-0.3.7/eap.c:825-835 | every call ends; it returns 1 exactly if the machine does not stay where it is; exactly when it ends by a null pointer, and exactly when by reading past the response; eapSuccess is set only where it is earned |
| Eap.EapSm.Run | progs.gpl/hostapd-0.3.7/eap.c:825-835 | any run: it halts only after a proposed method could not be set up, overruns only after a Nak with a length field below 5, and eapSuccess is set only where it is earned |
| Eap.EapSm.Feed | progs.gpl/hostapd-0.3.7/eap.c:825-835 | one call after any doing of the lower layer: exactly when it halts, and that an overrun needs a short Nak |
| Eap.SuccessfulRun | progs.gpl/hostapd-0.3.7/eap.c:203-496 | a run that succeeds, for any user whose first method is compiled in |
| Eap.HaltingInput | progs.gpl/hostapd-0.3.7/eap.c:325-333 | a concrete state and a response of four bytes that lead to the null pointer |
| Eap.EapSm.FailedInit | progs.gpl/hostapd-0.3.7/eap.c:382-406 | a failed init callback and a response without a type lead to the null pointer |
| Eap.EapSm.ShortNakReceived | progs.gpl/hostapd-0.3.7/eap.c:409-437 | a Nak with a length field of 4 makes the machine read past the end of the response |
| Eap.EapSm.NotifyCached | progs.gpl/hostapd-0.3.7/eap.c:913-919 | the invariant survives a cached success, which sets no flag |
| Eap.PhaseMeaning | progs.gpl/hostapd-0.3.7/eap.c:325-445 | what the recorded phases say about the trace |
| Eap.SuccessIsJustified | progs.gpl/hostapd-0.3.7/eap.c:476-496 | before every success a method other than Identity was proposed, checked, processed and then said that it succeeded, with no restart since |
| Eap.RepeatedIdentifier | progs.gpl/hostapd-0.3.7/eap.c:302-356 | a repeated identifier of requests sent without a back end means that a request in between could not be built |
| Eap.BuiltIsSent | progs.gpl/hostapd-0.3.7/eap.c:302-356 | a request that was built is sent before anything else happens |
| Eap.RepeatExactly | progs.gpl/hostapd-0.3.7/eap.c:302-356 | without a start, the identifier sent repeats exactly after a multiple of 256 identifiers used |
| Eap.RepeatAfterLoss | progs.gpl/hostapd-0.3.7/eap.c:336-356 | a run from the start of the machine that sends an identifier twice in a row, for every identifier |
| Eap.EapSm.Attempt | progs.gpl/hostapd-0.3.7/eap.c:302-406 | a start, by the entries of the table, with any identifier but the last; the request is sent exactly if it was built |
| Eap.AnyFollows | progs.gpl/hostapd-0.3.7/eap.c:681-691 | after a start exactly the identifiers other than the last can follow |
| KeyWrap.Wrap | progs.gpl/hostapd-0.3.7/aes_wrap.c:56-96 | the buffer after all 6n steps |
| KeyWrap.Unwrap | progs.gpl/hostapd-0.3.7/aes_wrap.c:105-150 | the key after all steps backwards, accepted exactly if the initial value is right |
| KeyWrap.StepUndone | progs.gpl/hostapd-0.3.7/aes_wrap.c:127-136 | an unwrapping step undoes a wrapping step |
| KeyWrap.WrapRoundTrip | progs.gpl/hostapd-0.3.7/aes_wrap.c:56-150 | unwrapping a wrapped key gives it back, for every length |
| KeyWrap.CounterFits | progs.gpl/hostapd-0.3.7/aes_wrap.c:85 | the one-byte counter is the 64-bit counter exactly below 256 |
| KeyWrap.WrapIsRfc | progs.gpl/hostapd-0.3.7/aes_wrap.c:56-96 | below 256 steps the buffer holds the registers of section 2.2.1 of RFC 3394, in its first formulation by shifting registers, turned by the number of steps |
| KeyWrap.InitialValue | progs.gpl/hostapd-0.3.7/aes_wrap.c:66-66 | eight bytes 0xa6 |
| KeyWrap.StepHolds | progs.gpl/hostapd-0.3.7/aes_wrap.c:78-90 | one step of the loop is one shift of the registers |
| KeyWrap.WrapOutput | progs.gpl/hostapd-0.3.7/aes_wrap.c:56-96 | the output is the register A and the registers R in order |
| Modes.GfMulx | progs.gpl/hostapd-0.3.7/aes_wrap.c:155-165 | the block is doubled in place |
| Modes.DoubleIsDouble | progs.gpl/hostapd-0.3.7/aes_wrap.c:155-165 | doubling is the shift and reduction of section 2.3 of RFC 4493, bit by bit |
| Modes.Omac1 | progs.gpl/hostapd-0.3.7/aes_wrap.c:168-201 | the code of section 2.4 of RFC 4493, for every length |
| Modes.PadBlockBits | progs.gpl/hostapd-0.3.7/aes_wrap.c:168-201 | an incomplete block is followed by a one bit and zero bits |
| Modes.ChainIsCbc | progs.gpl/hostapd-0.3.7/aes_wrap.c:168-201 | the chaining value is the last block of CBC from a zero initial value |
| Modes.MacIsCbc | progs.gpl/hostapd-0.3.7/aes_wrap.c:168-201 | the code is the last block of CBC over the message with the subkey on its last block, K1 exactly if that is complete |
| Modes.Increment | progs.gpl/hostapd-0.3.7/aes_wrap.c:233-237 | the counter in place becomes its successor |
| Modes.NextAddsOne | progs.gpl/hostapd-0.3.7/aes_wrap.c:233-237 | the successor is one more, and zero after the last value |
| Modes.CtrEncrypt | progs.gpl/hostapd-0.3.7/aes_wrap.c:212-239 | counter mode over the whole data |
| Modes.CtrBytes | progs.gpl/hostapd-0.3.7/aes_wrap.c:212-239 | byte j of block k is combined with byte j of the encryption of the counter plus k |
| Modes.CtrTwice | progs.gpl/hostapd-0.3.7/aes_wrap.c:212-239 | counter mode is its own inverse |
| Modes.EaxEncrypt | progs.gpl/hostapd-0.3.7/aes_wrap.c:242-284 | the encrypted data and the tag over nonce, header and encrypted data |
| Modes.TagBytes | progs.gpl/hostapd-0.3.7/aes_wrap.c:242-284 | the tag combines the codes of nonce, header and data, behind blocks that hold the numbers 0, 1 and 2 |
| Modes.EaxDecrypt | progs.gpl/hostapd-0.3.7/aes_wrap.c:287-332 | 0 exactly for the right tag; otherwise -2 and the data stay |
| Modes.EaxRoundTrip | progs.gpl/hostapd-0.3.7/aes_wrap.c:242-332 | decrypting what was encrypted returns 0 and the original data |
| Modes.CbcEncrypt | progs.gpl/hostapd-0.3.7/aes_wrap.c:335-354 | chained encryption of the whole blocks in place |
| Modes.CbcBlocks | progs.gpl/hostapd-0.3.7/aes_wrap.c:335-354 | each block is combined with the encrypted block before it and encrypted |
| Modes.CbcDecrypt | progs.gpl/hostapd-0.3.7/aes_wrap.c:357-377 | chained decryption of the whole blocks in place |
| Modes.CbcRoundTrip | progs.gpl/hostapd-0.3.7/aes_wrap.c:335-377 | decryption undoes encryption, for every length |
| Md5.Context.AddBits | progs.gpl/bpalogin-2.0.2/gen_md5.c:125-128 | the two words hold the bit count modulo 2^64 |
| Md5.Context.Transform | progs.gpl/bpalogin-2.0.2/gen_md5.c:135-140 | the state is the fold over all whole blocks so far |
| Md5.Context.Update | progs.gpl/bpalogin-2.0.2/gen_md5.c:117-148 | the context depends on the message only, not on how it is cut |
| Md5.Context.Final | progs.gpl/bpalogin-2.0.2/gen_md5.c:155-179 | the digest of the whole message with the padding of sections 3.1 and 3.2 of RFC 1321, the words of the state in order, low byte first; the context is cleared |
| Md5.WordBytes | progs.gpl/bpalogin-2.0.2/gen_md5.c:279-289 | the bytes of a word, low byte first |
| Md5.InitialWords | progs.gpl/bpalogin-2.0.2/gen_md5.c:106-109 | the initial words are the byte strings of section 3.3 of RFC 1321 |
| Md5.PaddedMeaning | progs.gpl/bpalogin-2.0.2/gen_md5.c:155-171 | the message, a byte 0x80, the fewest zero bytes, and the bit length modulo 2^64 low byte first, in whole blocks |
| Md5.DigestWords | progs.gpl/bpalogin-2.0.2/gen_md5.c:173-173 | the digest is the four words of the state in order, low byte first |
| Md5.FoldAppend | progs.gpl/bpalogin-2.0.2/gen_md5.c:117-148 | folding in pieces at block boundaries is folding at once |

## Left out

- Multiply.MulRecursive: the comba routines for 4 and 8 words are replaced by the schoolbook product, whose result is the same.
- Product.Mul: the branch that pads operands whose lengths differ by one word is left out; the product is the same number.
- Divide.DivideWords: the `top` fields of the shared window numbers are not updated, only their words.
- Montgomery.MontCtx.FromMontgomery: an argument longer than 2 * nl words, which the source cuts off, is excluded.
- WordDivision.DivWords: a high word of twice the divisor or more, whose quotient needs more than one word, is excluded; the callers pass a high word below the divisor.
- Exponent.SlidingWindow: the loop that the source has three times is stated once, over the three multiplications.
- Duplicates.Dups1: trees are values and pointers are paths, so a tree that shares nodes is not modelled; the same holds for the other members of expr.c.
- Eap.EapSm.EnterNak: where the source reads past the end of the response the model stops, with `overrun` set and the methods as they were.
- Eap.EapSm.EnterIntegrityCheck: where the source follows a null pointer the model stops, with `halted` set.
- Eap.EapSm.Run: between the calls the lower layer may do anything but set eapSuccess, which it does only where an outside authentication server takes the place of this machine.
- Allocator.MemHelper.Malloc: the signature in a header is modelled as knowing the block, so memory that imitates a header is not covered.
- Sloop.EventLoop.Register: the seconds are unbounded, so overflow of `tv_sec` is not modelled.
- Sloop.EventLoop.Cancel: that the two lists of slots are rings of nodes is proved apart, in ListPair, with the same equations.
- Md5.Context.Update: pieces of 2^32 - 63 bytes and more, for which the loop test of the source overflows, are excluded.
- Allocation failures of the arithmetic, of the modes and of EAP, error reporting and debug output.
- Aliasing between results and operands of BIGNUM routines: numbers are values.
- `bn_mul_part_recursive`, `bn_mul_low_recursive`, `bn_mul_high`, `BN_exp`, `BN_mod_lshift`, `BN_bin2bn`, `BN_bn2bin`, `sqr64`: not needed by the results above.
- `expr_trans_compare`, choice and range expressions, `sym_calc_value`, menus and files of the configuration language.
- Sockets, signals and `select` of the event loop, except that their handlers may make any timer calls.
- The EAP methods themselves, the retransmission timer, and the EAPOL state machines.
- The rounds of AES and of MD5.
