# Verification of the Ethereum simulation library's core

This project models, in Dafny, the parts of the library where a mistake would be hardest to see, and proves what
they are for. `dafny verify dfyconfig.toml` checks all of it. No part of the original program is executed here.

Four areas, each built in layers:

1. **secp256k1 arithmetic.** `Numbers` has the number theory the rest needs (congruences, Bezout, Euclid's lemma,
   Fermat's little theorem from the binomial theorem). `Limbs` has 64-bit limbs with a value function and the
   carry and borrow chains for any number of limbs. `FieldMul` has the schoolbook product and the folding
   reduction modulo P. `ModInv` is extended Euclid in wrapping words, `ModRoot` exponentiation and the square
   root, `Curve` the affine group and double-and-add, `LimbCurve` the same on limb coordinates with the code's own
   subtraction, and `Ecdsa` recovery and signing.
2. **EVM call frames over nested overlays.** `Worlds` is the reference: each call works on a copy of the world,
   kept on success and thrown away on failure; contract code is any deterministic reaction to what it has
   observed; what a transaction, a store, a load and each kind of call do to balances and slots is stated about it
   directly. `Overlay` and `Contexts` are the caches the code really keeps, written in place by class methods and
   proved to give the same answers and the same final state. `Transient` compares transient storage with a
   reference of its own, and `Interpreter` is the bytecode loop with its 32-bit gas, its memory and its nested calls.
3. **The priority queue.** `FibonacciHeap` is the linked structure itself, pointers included.
4. **Hash streaming and transaction encoding.** `Sha256` and `Sponge` treat the compression function and the
   permutation as arbitrary functions. `Rlp` and `Transactions` are the encoder and the envelope builder; `Bytes`
   has big-endian bytes, shared with the interpreter.

Standing hypotheses, always written out as preconditions:

- `Ecdsa.Setting` says that the field modulus and the group order are odd primes (the first 3 modulo 4), that the
  order is below the modulus, that the generator is on the curve and has that order, and that point addition is
  associative. `Ecdsa.CurveConstants` proves everything among these that is a plain computation on the constants.
- The overlay theorems are about a bottom provider that answers every account and slot request.
- The termination theorem is about gas limits and code sizes below 2^31.

Where the code departs from the obvious claim, the departure is kept in the model and its exact boundary is proved:

- Field subtraction loses a borrow when a limb of the subtrahend is 2^64 - 1 and a borrow comes in;
  `Limbs.ModSub` proves the result right if and only if that happens nowhere, and `Limbs.LostBorrowExists` gives
  operands where it does.
- Multiplying a field element by a negative int is wrong except for zero (`FieldMul.MulSmall`).
- Recovery refuses exactly when no curve point has abscissa r, r is 0 modulo the order, or the result is infinite
  (`Ecdsa.RecoverExactly`). From a signature on a hash that is 0 modulo the order it can give the negative of the
  public key, because signing compares abscissas only; `Ecdsa.SigningRecovers` says exactly when, and
  `Ecdsa.ZeroHashGivesNegative` is such a signature for the source's constants.
- Signing recurses when s = 0. It always ends unless key and hash are both 0 modulo the order
  (`Ecdsa.SignAlways`), and then never does (`Ecdsa.NothingUsable`).
- The credit comes before the balance check, so a frame that pays itself is never asked for its funds;
  `Worlds.EnterSucceeds` says exactly when the transfer succeeds.
- The remaining gas is an unsigned difference, so a frame that has overspent still passes the guard of a call, with
  about 2^32 gas to forward from. `Machine` does the same. Its methods take a budget of such calls (and of wraps of
  the 32-bit gas counter), so that a run which does not halt is one that exhausts every budget. `Machine.RunEVMRaw`
  describes the run it makes as a tree, `FrameRun`: every tick with the state it found, every call with the callee's
  own run, each held by `RunOk` to what the instructions do. `Interpreter.Halts` says that a run without such events
  anywhere in its tree halts within its gas limit but for one instruction's charge and the lookups passed to it, and
  `Interpreter.SelfCallNeverEnds` that the nine bytes 5F 5F 5F 5F 5F 30 60 1E F1 with 30 gas never halt.
- Strings of 56 bytes or more and lists of 256 bytes or more mostly get a wrong length prefix;
  `Rlp.WrittenStringRight`, `Rlp.WrittenListHeaderRight` and `Transactions.EnvelopeExact` say exactly which ones.
- `tload` asks the parent about the parent's address and keeps the answer as this frame's own, and commits carry
  kept answers outward. `Transient.AgreesExactly` says that a call tree is served as EIP-1153 asks, for all loads and
  stores, exactly if all its frames have one address; `Transient.AnswersTravel` is a chain of one address that loads
  what was never stored there.

## Model

| member | source | states |
|---|---|---|
| Limbs.AddRaw | src/crypto/modbigint.h:31-42 | For any number of limbs, the limbs out are `Sums`, and value out plus carry out times 2^(64N) is the sum of the values in; the carry is a bit |
| Limbs.SubRaw | src/crypto/modbigint.h:44-55 | The same for the exact borrow test: value out plus subtrahend is value in plus borrow times 2^(64N) |
| Limbs.ModAdd | src/crypto/modbigint.h:57-69 | Addition modulo P whenever the operands sum to less than 2P, so on all canonical inputs, overflow included |
| Limbs.SubLoop | src/crypto/modbigint.h:71-84 | The limbs out are `LossyLimbs`; the loose borrow test is off by an even amount, which is 0 exactly when no limb equal to 2^64 - 1 meets a borrow |
| Limbs.SumsExact | src/crypto/modbigint.h:31-42 | The limb sums of the carry loop with its last carry are the sum of the values |
| Limbs.LossyTotal | src/crypto/modbigint.h:71-84 | Limb by limb, the wrapping borrow test leaves twice the lost weight behind, and nothing exactly when the borrows are kept |
| Limbs.LossyExact | src/crypto/modbigint.h:71-93 | `LossyDifference`, as a function of its operands, is right on canonical operands if and only if the borrows are kept |
| Limbs.ModSub | src/crypto/modbigint.h:71-93 | The limbs out are `LossyDifference`; for canonical operands and odd P they are the difference modulo P if and only if no limb of the subtrahend equal to 2^64 - 1 receives a borrow |
| Limbs.LostBorrowExists | src/crypto/Secp256k1.h:84-106 | Four-limb operands below 2^192 for which a borrow is lost |
| FieldMul.WrongDifference | src/crypto/Secp256k1.h:84-106 | 2^128 less 2^128 - 2^64 + 1: both canonical, and `LossyDifference` of their limbs is not their difference modulo P |
| FieldMul.FoldConstant | src/crypto/Secp256k1.cpp:31 | 2^256 is P + 0x1000003d1, the congruence folding rests on |
| FieldMul.FoldPass | src/crypto/Secp256k1.cpp:202-217 | One pass replaces low by low + high * 0x1000003d1 exactly, with the carry out of the last limb as the next high |
| FieldMul.FoldStep | src/crypto/Secp256k1.cpp:201-218 | A pass keeps high * 2^256 + low modulo P and makes it strictly smaller, so the loop ends |
| FieldMul.Canonical | src/crypto/Secp256k1.cpp:220-222 | One conditional subtraction brings any 256-bit value below P without changing it modulo P |
| FieldMul.FoldWord | src/crypto/Secp256k1.cpp:200-223 | Folding one high word terminates with the canonical residue of high * 2^256 + low |
| FieldMul.FoldWide | src/crypto/Secp256k1.cpp:226-238 | Folding four high limbs gives the canonical residue of the 512-bit value |
| FieldMul.NoOverflow128 | src/crypto/Secp256k1.cpp:275-283 | A limb product plus two limbs fits in 128 bits |
| FieldMul.ProductRow | src/crypto/Secp256k1.cpp:270-291 | One row adds a_i * b * 2^(64i) to the two-array accumulator exactly and leaves the higher limbs alone |
| FieldMul.Mul | src/crypto/Secp256k1.cpp:263-296 | The product modulo P, canonical, for all 256-bit operands |
| FieldMul.ExcessVanishes | src/crypto/Secp256k1.cpp:304-308 | What the 128-bit wraps of a negative factor leave behind is a multiple of P only if there is none |
| FieldMul.MulSmall | src/crypto/Secp256k1.cpp:298-312 | For every int, the result is canonical, and is the product modulo P if and only if the factor is not negative or the value is 0 |
| ModInv.CoefficientStep | src/crypto/modbigint.h:129-141 | Each Euclid step keeps abs(t) * r_old + abs(t_old) * r = m, the alternating signs, and the congruences t * a = r |
| ModInv.WrapStep | src/crypto/modbigint.h:137 | The wrapping update of the coefficients is the true update modulo 2^(64N) |
| ModInv.LastQuotient | src/crypto/modbigint.h:129-145 | When the loop ends at remainder 1, the last coefficient is at most m/2 in magnitude |
| ModInv.FinalSign | src/crypto/modbigint.h:147-152 | The top bit is then exactly the sign, so adding m for it gives the inverse in [0, m) |
| ModInv.Invert | src/crypto/modbigint.h:113-153 | For any word-sized a and 2 <= m < 2^(64N) the loop ends and returns the inverse of a in [0, m) when gcd(a, m) = 1, else 0 |
| ModRoot.Exp | src/crypto/Secp256k1.h:175-187 | Square-and-multiply gives a^e mod p for every exponent of the given width |
| ModRoot.RootOfSquare | src/crypto/Secp256k1.h:198-205 | For prime p = 3 modulo 4, the power (p + 1) / 4 of a residue is one of its roots |
| ModRoot.SqrtCorrect | src/crypto/Secp256k1.h:194-208 | The square root is genuine when nonzero, and 0 if and only if the argument is 0 or has no root |
| ModRoot.ModSqrt | src/crypto/Secp256k1.h:194-208 | The method returns a genuine root whenever one exists, and 0 only for 0 or a non-residue |
| Curve.LineCubic | src/crypto/Secp256k1.cpp:49-60 | Polynomial identity: curve minus line splits off the two known abscissas and the third |
| Curve.ThirdOnCurve | src/crypto/Secp256k1.cpp:57-60 | If both known abscissas are roots, the mirrored third intersection satisfies y^2 = x^3 + 7 |
| Curve.ChordOnCurve | src/crypto/Secp256k1.cpp:56-60 | The chord formula stays on the curve |
| Curve.TangentOnCurve | src/crypto/Secp256k1.cpp:49-53 | The tangent formula stays on the curve |
| Curve.AddOnCurve | src/crypto/Secp256k1.cpp:38-61 | Every branch of point addition maps curve points to a curve point or infinity |
| Curve.AddCommutes | src/crypto/Secp256k1.cpp:38-61 | Point addition is commutative on the curve |
| Curve.AddNeg | src/crypto/Secp256k1.cpp:81-89 | A point and its negative sum to infinity |
| Curve.SameAbscissa | src/crypto/Secp256k1.cpp:188 | Curve points with one abscissa are equal or each other's negatives, which is all the comparison in sign decides on |
| Curve.ChordLaw | src/crypto/Secp256k1.cpp:56-60 | The sum of points with different abscissas is the third point of the line through both, mirrored: collinear with them, and with the abscissas summing to the square of the slope |
| Curve.TangentLaw | src/crypto/Secp256k1.cpp:49-53 | A point added to itself is the mirrored third point of the tangent, whose slope s has 2 y s = 3 x^2 |
| Curve.ZeroLaw | src/crypto/Secp256k1.cpp:38-48 | Infinity is neutral, and a sum is infinity if and only if the points are each other's negatives |
| Curve.NegOnCurve | src/crypto/Secp256k1.cpp:81-85 | Negation stays on the curve and undoes itself |
| Curve.TimesOnCurve | src/crypto/Secp256k1.cpp:63-75 | Every multiple of a curve point is on the curve |
| Curve.TimesAdd | src/crypto/Secp256k1.cpp:63-75 | Given associativity, (j + k) a = j a + k a |
| Curve.TimesMul | src/crypto/Secp256k1.cpp:63-75 | Given associativity, (j k) a = j (k a) |
| Curve.Divide | src/crypto/Secp256k1.h:112-131 | Division by way of the wrapping Euclid loop is multiplication by the modular inverse |
| Curve.AddPoints | src/crypto/Secp256k1.cpp:38-61 | Over exact field operations, with inverses computed by the Euclid loop, the code's addition is the mathematical one |
| Curve.ScalarMul | src/crypto/Secp256k1.cpp:63-75 | Given associativity and exact field operations, most-significant-bit-first double-and-add is the n-fold sum for every 256-bit n |
| LimbCurve.ToLimbsValue | src/crypto/Secp256k1.h:112-131 | Every value below 2^(64n) has limbs |
| LimbCurve.ValueInjective | src/crypto/Secp256k1.cpp:42-46 | Comparing limbs is comparing values |
| LimbCurve.MinusExact | src/crypto/Secp256k1.h:84-106 | The code's subtraction of canonical operands is exact if and only if it keeps its borrows |
| LimbCurve.Quotient | src/crypto/Secp256k1.h:112-131 | For all 256-bit operands, division on limbs gives `QuotientOf`, with the divisor reduced once first |
| LimbCurve.QuotientExact | src/crypto/Secp256k1.h:112-131 | That is multiplication by the inverse of the divisor modulo P, canonical |
| LimbCurve.ThirdExact | src/crypto/Secp256k1.cpp:51-60 | The third point on limbs is the line's if none of its four subtractions, given by the operands, loses a borrow |
| LimbCurve.SumExact | src/crypto/Secp256k1.cpp:38-61 | In every branch, `LossySum` of canonical points is their sum if the subtractions in `SumLog` keep their borrows |
| LimbCurve.MultipleIsTimes | src/crypto/Secp256k1.cpp:63-75 | After every bit, `LossyMultiple` is the multiple by the bits so far if the subtractions up to there keep their borrows |
| LimbCurve.SumLogKept | src/crypto/Secp256k1.cpp:38-61 | Which subtractions have to keep their borrows in a sum: none with infinity, four in a double, six in a chord |
| LimbCurve.MultipleLogKept | src/crypto/Secp256k1.cpp:63-75 | In a scalar multiplication, exactly those of the sums of every step |
| LimbCurve.NoAllOnes | src/crypto/Secp256k1.h:84-106 | A subtrahend without a limb 2^64 - 1 keeps its borrows whatever it is subtracted from |
| LimbCurve.AddLimbs | src/crypto/Secp256k1.cpp:38-61 | Point addition on limb coordinates is `LossySum`, and the mathematical sum of canonical points whenever none of the subtractions in `SumLog` of these operands loses a borrow |
| LimbCurve.ScalarMulLimbs | src/crypto/Secp256k1.cpp:63-75 | The loop computes `LossyMultiple` for every 256-bit scalar, and the scalar multiple whenever none of the subtractions in `MultipleLog` of point and scalar loses a borrow |
| Ecdsa.CurveConstants | src/crypto/Secp256k1.cpp:31-34 | The generator is on the curve, its abscissa is nonzero modulo N, 10 < N < P < 2N, P < 2^256 and P is 3 modulo 4 |
| Ecdsa.MultipleVanishes | src/crypto/Secp256k1.cpp:140-145 | k G is infinity if and only if the order divides k |
| Ecdsa.MultipleNeg | src/crypto/Secp256k1.cpp:142 | (N - z) G is the negative of z G |
| Ecdsa.RebuiltPoint | src/crypto/Secp256k1.cpp:117-132 | From x(R) and the id, recovery rebuilds R or -R by the parity of its ordinate |
| Ecdsa.RecoverMultiple | src/crypto/Secp256k1.cpp:134-147 | If the rebuilt point is kk G, recovery gives the multiple of G whose exponent solves the linear equation modulo N, or nothing when that exponent is 0 |
| Ecdsa.RightIdRecovers | src/crypto/Secp256k1.cpp:116-148 | With the id that rebuilds the nonce point (or its negative after flipping s), recovery gives exactly d G |
| Ecdsa.WrongIdRecovers | src/crypto/Secp256k1.cpp:116-148 | With the other id, recovery never gives d G, and what it gives is accepted if and only if the hash is 0 modulo N; then it is -d G |
| Ecdsa.SigningRecovers | src/crypto/Secp256k1.cpp:157-194 | One of the two ids is accepted, so the all-zero fallback is unreachable; recovery on the returned signature gives d G or -d G, and d G if and only if the hash is nonzero modulo N or the first id is the right one |
| Ecdsa.ZeroHashSigns | src/crypto/Secp256k1.cpp:184-190 | Key and nonce N - 1 with a zero hash: a good nonce whose first id is the wrong one |
| Ecdsa.ZeroHashGivesNegative | src/crypto/Secp256k1.cpp:157-194 | With the source's constants, recovery from that signature gives the negative of the public key |
| Ecdsa.RebuiltExactly | src/crypto/Secp256k1.cpp:116-132 | A point is rebuilt if and only if the curve has one of abscissa r (less P if r is that large) with a nonzero ordinate; it is on the curve, and its ordinate has the parity the id asks for |
| Ecdsa.RecoverExactly | src/crypto/Secp256k1.cpp:116-148 | Recovery gives a key if and only if such a point exists, r is not 0 modulo N and (s R - z G) / r is finite; the key is then its negative, a finite point of the curve |
| Ecdsa.RefusesOffCurve | src/crypto/Secp256k1.cpp:124-126 | If no point of the curve has the abscissa r, there is no key |
| Ecdsa.LowSIsLow | src/crypto/Secp256k1.cpp:180-182 | The s kept has its top bit clear and is s or N - s, and s itself if its top bit is clear |
| Ecdsa.RecoverKey | src/crypto/Secp256k1.cpp:116-148 | The code's recovery is `Recover`, which the lemmas are about, for every r, s, id and hash |
| Ecdsa.GoodNonceSettles | src/crypto/Secp256k1.cpp:160-173 | A nonce with nonzero x(k G) below N is used unchanged |
| Ecdsa.Sign | src/crypto/Secp256k1.cpp:157-194 | The r = 0 loop terminates, and the result is the mathematical signature with low s and the first accepted id, or a retry exactly when s = 0; for a good nonce it is the signature `SigningRecovers` is about |
| Ecdsa.ZeroS | src/crypto/Secp256k1.cpp:175-176 | s is 0 exactly when r d + z is 0 modulo N |
| Ecdsa.AbscissasDiffer | src/crypto/Secp256k1.cpp:167-169 | Small multiples of the generator have pairwise different abscissas |
| Ecdsa.UsableExists | src/crypto/Secp256k1.cpp:167-178 | Unless key and hash are both 0 modulo N, some nonce gives nonzero r and s |
| Ecdsa.NothingUsable | src/crypto/Secp256k1.cpp:175-178 | With key and hash both 0 every nonce gives s = 0, so the recursion never ends |
| Ecdsa.SettleToward | src/crypto/Secp256k1.cpp:167-173 | Stepping over r = 0 never passes a usable nonce |
| Ecdsa.SettleFirst | src/crypto/Secp256k1.cpp:167-173 | The r = 0 loop stops at the first nonce with a nonzero r |
| Ecdsa.DistanceSteps | src/crypto/Secp256k1.cpp:171-172 | First is by the number of steps from k modulo N upward |
| Ecdsa.RetriedFirst | src/crypto/Secp256k1.cpp:175-178 | The first usable nonce from the retry's start is the first from where the failed attempt started |
| Ecdsa.UsableGood | src/crypto/Secp256k1.cpp:157-178 | A usable nonce is good if and only if the key is not 0 and the abscissa of its point is below N |
| Ecdsa.ChosenOrZero | src/crypto/Secp256k1.cpp:184-193 | For any nonzero r the result is all zeros if and only if neither id is accepted, as when no curve point has the abscissa r, and is an accepted signature otherwise |
| Ecdsa.SignRetrying | src/crypto/Secp256k1.cpp:157-194 | The recursion on s = 0 ends with the first usable nonce from k modulo N upward; if its point has an abscissa below N and the key is not 0, that nonce is good and the result is its signature, and else what `ChooseId` gives |
| Ecdsa.SignAlways | src/crypto/Secp256k1.cpp:157-194 | For every key below the order and every hash, not both 0 modulo N, signing ends, with the nonce and the result of `SignRetrying` |
| Worlds.StaticRun | src/ethereum/EVM.cpp:228 | A static frame with all its descendants leaves the world exactly as it was |
| Worlds.EnterConserves | src/ethereum/EVM.cpp:1014-1022 | Pay-before-deduct in wrapping arithmetic keeps the sum of balances when it succeeds |
| Worlds.EnterSucceeds | src/ethereum/EVM.cpp:1014-1022 | A transfer between two accounts succeeds if and only if the payer has the funds, one to itself if and only if the credit does not wrap |
| Worlds.RunConserves | src/ethereum/EVM.cpp:1011-1044 | Every successful run, with any nesting of calls and failures, keeps the sum of balances |
| Worlds.ExecuteConserves | src/ethereum/EVM.cpp:1092-1104 | Whatever a transaction does, the sum of balances on the chain is unchanged if it was below 2^256 |
| Worlds.PlainTransfer | src/ethereum/EVM.cpp:1092-1104 | A transfer to another account without code debits and credits exactly the value if the funds suffice, with every other balance, nonce and slot as before, and else leaves the chain as it was |
| Worlds.SelfTransfer | src/ethereum/EVM.cpp:1014-1020 | A transfer to oneself changes no balance, nonce or slot |
| Worlds.StoreReachesChain | src/ethereum/EVM.cpp:1092-1104 | A recipient that stores v at k and stops leaves v at its slot k on the chain, no other slot changed, and has received the value |
| Worlds.FailureKeepsChain | src/ethereum/EVM.cpp:1102-1103 | A recipient that fails or has no step to run leaves the chain as it was, the transfer included |
| Worlds.LoadAfterStore | src/ethereum/EVMSimulationContext.cpp:78-146 | In a frame, a load after a store of v at k observes v at k, and at any other key what it observed before |
| Worlds.BalanceAfterMove | src/ethereum/EVM.cpp:606-612 | After a transfer BALANCE observes the debit and the credit, and every other balance as before |
| Worlds.CallMoves | src/ethereum/EVM.cpp:285-297 | An ordinary call with value debits the calling frame's own account and credits the target, if the funds suffice; a call that fails changes nothing |
| Worlds.CallAnswers | src/ethereum/EVM.cpp:231-240 | The caller is told whether the callee succeeded and what it gave back, for every kind of call |
| Worlds.CalleeStores | src/ethereum/EVM.cpp:292-294 | A callee's store lands at the target in an ordinary call, at the calling frame's own address in a delegate call, and nowhere in a static one; what the callee is told of caller, self and value is fixed in each |
| Worlds.FailedCall | src/ethereum/EVM.cpp:244-245 | A failed call of any kind leaves the world as it was |
| Worlds.StaticPays | src/ethereum/EVM.cpp:1016-1018 | A call with value from a static frame fails and changes nothing |
| Overlay.CacheAccount | src/ethereum/EVMSimulationContext.cpp:190-197 | Caching what the parent shows changes no frame's view |
| Overlay.CacheSlot | src/ethereum/EVMSimulationContext.cpp:78-93 | The same for storage slots |
| Overlay.WriteAccount | src/ethereum/EVMSimulationContext.h:121-146 | Writing an account into the top layer writes it in the world shown, and nothing else |
| Overlay.WriteSlot | src/ethereum/EVMSimulationContext.cpp:95-143 | The same for a storage slot |
| Overlay.EmptyShows | src/ethereum/EVMSimulationContext.h:67-76 | A fresh child frame shows what its parent shows |
| Overlay.MergeStep | src/ethereum/EVMSimulationContext.cpp:251-261 | Merging one more address's entries is one step of the entry-by-entry union |
| Overlay.CommitShows | src/ethereum/EVMSimulationContext.cpp:20-42 | Committing a child makes the parent's view equal the child's |
| Overlay.CommitToChain | src/ethereum/EVMSimulationContext.cpp:30-42 | Committing the outermost frame makes the chain hold what the frame showed |
| Contexts.Context.GetAccountInfo | src/ethereum/EVMSimulationContext.cpp:190-197 | The answer is the one the stack of overlays shows; the caching on the way down changes no frame's view |
| Contexts.Context.GetStorageSlot | src/ethereum/EVMSimulationContext.cpp:212-233 | The same for slots |
| Contexts.Context.SLoad | src/ethereum/EVMSimulationContext.cpp:78-93 | The same through sload, which costs 2000 more exactly when the slot is new to the frame |
| Contexts.Context.SStore | src/ethereum/EVMSimulationContext.cpp:95-143 | A static frame refuses; otherwise the world shown changes at that slot only and outer frames see nothing |
| Contexts.Context.PayAccount | src/ethereum/EVMSimulationContext.h:121-131 | Refused when static; otherwise the frame shows the wrapping credit and outer frames see nothing |
| Contexts.Context.DeductAccount | src/ethereum/EVMSimulationContext.h:133-146 | Succeeds exactly when not static and the balance suffices, and then shows the debit |
| Contexts.Context.Enter | src/ethereum/EVM.cpp:1014-1022 | The transfer at the start of a frame is the reference one, failures included |
| Contexts.Context.WriteChangesTo | src/ethereum/EVMSimulationContext.cpp:20-42 | A parent receives every account and slot entry, and a static parent none |
| Contexts.Context.RunEVMRaw | src/ethereum/EVM.cpp:1011-1044 | A whole frame returns what the reference run returns and ends showing its world; no outer frame sees a change |
| Contexts.Context.TickEVMRaw | src/ethereum/EVM.cpp:350-1008 | One action has the effect and the observation of the reference step |
| Contexts.Context.CallRaw | src/ethereum/EVM.cpp:218-255 | A nested call shows the child's world on success and the caller's own on failure |
| Contexts.Context.Commit | src/ethereum/EVM.cpp:244-245 | After the commit the parent shows what the child showed, unless the parent is static |
| Contexts.Context.WriteChangesToChain | src/ethereum/EVMSimulationContext.cpp:30-42 | The chain receives every account and slot entry |
| Contexts.Execute | src/ethereum/EVM.cpp:1092-1104 | The chain ends with exactly the accounts and slots of the reference execution, whose transfers, stores and failures `Worlds` states by balances and slots, and the supply is conserved |
| Transient.LoadsRightExactly | src/ethereum/EVMSimulationContext.cpp:51-64 | tload finds the nearest entry under the frame's own address, for all contents of the frames, if and only if all frames of the chain have one address; entries include kept answers, so this alone says nothing of what was stored |
| Transient.PlantedLoads | src/ethereum/EVMSimulationContext.cpp:63 | Contents that make it find another entry for any chain with a second address |
| Transient.AgreesExactly | src/ethereum/EVMSimulationContext.cpp:20-76 | Whatever its frames load and store, a call tree answers every load and ends as the reference (stores by address, copied per call, thrown away on failure, after EIP-1153) does, if and only if every frame of the whole tree has one address |
| Transient.AgreeTree | src/ethereum/EVM.cpp:218-255 | In frames of one address, code and reference agree on every answer, on the outcome and on the state, for every mode and every enclosing stack |
| Transient.FilledDisagrees | src/ethereum/EVMSimulationContext.cpp:63 | For any tree with a second address: if the outermost frame stores 1 at slot 0 and the others load it, code and reference disagree |
| Transient.AnswersTravel | src/ethereum/EVMSimulationContext.cpp:20-28 | A calls B, which stores 7 and calls A, which loads it: after the commits the outermost frame, with A alone in its chain, loads 7 where nothing was stored |
| Transient.CommitsDiffer | src/ethereum/EVMSimulationContext.cpp:25-27 | Two stacks no frame can tell apart, which after the same two commits load 0 and 7: `SameLoads` does not survive a commit |
| Transient.RefStatic | src/ethereum/EVMSimulationContext.cpp:66-68 | In the reference a static frame changes nothing |
| Transient.RefLoadAfterStore | src/ethereum/EVMSimulationContext.cpp:51-76 | In the reference, a load answers the last store to its key, and other stores do not disturb it |
| Transient.RefCallStores | src/ethereum/EVMSimulationContext.cpp:20-28 | A reference callee's store is kept at its own address if it succeeds and nothing is static, and leaves no trace otherwise |
| Transient.RefCallLoads | src/ethereum/EVMSimulationContext.cpp:51-64 | A reference callee loads what is stored at its own address |
| Transient.OneRun | src/ethereum/EVM.cpp:1011-1044 | Scripts and the stores at the start determine the reference's run |
| Transient.CodeRunIsRefRun | src/ethereum/EVM.cpp:1011-1044 | For contracts that react to what they load: the code's run, if all its frames have one address, is the reference's only run |
| Transient.LoadsKept | src/ethereum/EVM.cpp:218-255 | Until a commit reaches them, frames around a run load what they did before, and after a static run so does the frame itself |
| Transient.CachedSame | src/ethereum/EVMSimulationContext.cpp:51-64 | The entries a tload leaves in all frames change no load until a commit |
| Transient.LoadsCallersSlot | src/ethereum/EVMSimulationContext.cpp:51-76 | A call tree of two frames: a callee that never stored anything loads the 1 its caller stored, where the reference loads 0 |
| Transient.CacheLoad | src/ethereum/EVMSimulationContext.cpp:61-63 | Keeping the parent's answer changes no frame's loads until a commit |
| Transient.CommitLoads | src/ethereum/EVMSimulationContext.cpp:25-27 | After a commit the parent loads what the child recorded for the parent's address, else what it did before |
| Transient.CommitShowsChild | src/ethereum/EVMSimulationContext.cpp:20-28 | Between frames of one address a commit hands the child's whole view to the parent |
| Transient.TransientFrame.TLoad | src/ethereum/EVMSimulationContext.cpp:51-64 | The answer is the chain's, and exactly the entries of `Cached` are left behind |
| Transient.TransientFrame.TStore | src/ethereum/EVMSimulationContext.cpp:66-76 | Refused when static; otherwise exactly the frame's own entry at the key changes |
| Transient.TransientFrame.WriteChangesTo | src/ethereum/EVMSimulationContext.cpp:20-28 | A parent receives every transient entry, and a static parent none |
| Transient.TransientFrame.Run | src/ethereum/EVM.cpp:1011-1044 | A whole frame with its descendants does what its scripts say (`Played`), and leaves the frames, answers and outcome of `CodeActs` |
| Transient.TransientFrame.CallRaw | src/ethereum/EVM.cpp:218-255 | The callee's run is played by the target's script in a frame of the right address and mode, and its entries are committed as `CodeAct` says |
| Interpreter.CostBounds | src/ethereum/EVMSimulationContext.cpp:158-172 | Under the 1482849-byte cap there are at most 46340 words, so no 32-bit product overflows |
| Interpreter.CostFormula | src/ethereum/EVMSimulationContext.cpp:169-172 | Memory cost is 3 a word and the square of the words over 512, rounded down |
| Interpreter.ToIntExact | src/ethereum/EVMSimulationContext.cpp:163-164 | The cast to int is congruent modulo 2^32 and in the range of a signed 32-bit integer |
| Interpreter.WindowFits | src/ethereum/EVMSimulationContext.cpp:158-167 | Even if offset + size wraps at 2^256, the accepted 32-bit window is the one that was bounded |
| Interpreter.ExpansionsTelescope | src/ethereum/EVMSimulationContext.cpp:157-181 | Over any sequence of successful expandMemory calls the gas charged is the cost of the final size minus that of the first (Appendix H of the Yellow Paper) |
| Interpreter.ForwardedLess | src/ethereum/EVM.cpp:225 | The forwarded gas is strictly below the remaining gas, even where the 32-bit product by 63 wraps |
| Interpreter.ForwardedExact | src/ethereum/EVM.cpp:225 | It is the request, or 63/64 of what is left rounded down, with the product taken modulo 2^32 |
| Interpreter.PrecompiledCosts | src/ethereum/precompiledContracts.cpp:92-138 | 3000 for ecrecover, 60 and 12 a word for sha256, 15 and 3 a word of what fits for identity, all that is left for any other |
| Interpreter.OverspentPasses | src/ethereum/EVMSimulationContext.h:115-117 | The arithmetic of the guard: it stops only gasUsed = gasLimit, and k gas overspent leaves 2^32 - k |
| Interpreter.StoredWord | src/ethereum/EVM.cpp:740-758 | A word written to memory reads back as itself |
| Interpreter.AluUndone | src/ethereum/EVM.cpp:364-380 | The sum less the second operand is the first, and the difference and the second operand make the first, modulo 2^256 |
| Interpreter.OperandOrder | src/ethereum/EVM.cpp:259-265 | Which stack slot is which operand, for each call opcode |
| Interpreter.OwnCharges | src/ethereum/EVM.cpp:964-986 | CALL, DELEGATECALL and STATICCALL charge 100 by themselves, CALLCODE nothing |
| Interpreter.InstructionCosts | src/ethereum/EVM.cpp:364-932 | The charges of the instructions that always cost the same |
| Interpreter.WindowFilled | src/ethereum/EVM.cpp:231-240 | Writing the cut data over the return window leaves the callee's first bytes there and the rest of memory as it was |
| Interpreter.Machine.ExpandMemory | src/ethereum/EVMSimulationContext.cpp:157-181 | Exact success condition, exact gas charge, and memory extended by zeros with the old bytes kept; total memory gas is always floor(w^2/512) + 3w for the present w words (Appendix H of the Yellow Paper) |
| Interpreter.Machine.Jump | src/ethereum/EVM.cpp:786-808 | Execution continues only at the next instruction or at a JUMPDEST byte inside the code |
| Interpreter.Machine.MLoad | src/ethereum/EVM.cpp:740-748 | The word pushed is the 32 bytes at the offset, in a memory that extends the old one by zeros; it goes on exactly if the window is accepted, with the charge of that expansion |
| Interpreter.Machine.MStore | src/ethereum/EVM.cpp:749-758 | Exactly the 32-byte window changes; it goes on exactly if the window is accepted, with the charge of that expansion |
| Interpreter.CopyResult | src/ethereum/EVM.cpp:199-209 | A window written with zero-filled source bytes over grown memory is the source from the offset on, the rest unchanged |
| Interpreter.Machine.Copy | src/ethereum/EVM.cpp:176-212 | CODECOPY and MCOPY: every memory byte afterwards, with the source zero-filled past its end, the exact condition for going on and the exact charge |
| Interpreter.Machine.DoReturn | src/ethereum/EVM.cpp:971-975 | RETURN goes on as if nothing had happened if and only if its window is refused, be it for size, sign or gas; otherwise the returned bytes are the window |
| Interpreter.Machine.TakeArgs | src/ethereum/EVM.cpp:259-265 | The operands come off the stack in the order of the opcode, with a value only for CALL and CALLCODE |
| Interpreter.Machine.OpenWindows | src/ethereum/EVM.cpp:269-272 | Both windows are inside memory on success, and the charge is exactly that of the two expansions |
| Interpreter.Machine.Precompiled | src/ethereum/precompiledContracts.cpp:92-138 | The flag is 1 exactly for a known contract whose cost is within the gas left, read as a signed int, and the cost is charged either way |
| Interpreter.Machine.GenerateCall | src/ethereum/EVM.cpp:258-347 | A call is `CallOk`: refused windows, a precompiled contract and nothing left of the limit as the code has them; overspent if and only if both windows are accepted, the target is no precompiled contract and the charges so far exceed the limit; else the callee's own run is nested in it with the target's code, the target's address (this frame's for DELEGATECALL) and the gas limit the code gives it; 1 is pushed if it returned and 0 if it failed, and its first bytes, as many as fit, are in the return window; the budget used is exactly the events in it |
| Interpreter.Machine.CallRaw | src/ethereum/EVM.cpp:218-255 | Out of gas exactly at gasUsed = gasLimit; otherwise the callee's run is a run of its code from a fresh start on the forwarded gas, and stack, memory and gas afterwards are given by its outcome; a frame that is overspent, or whose counter wraps, uses up one of the budget |
| Interpreter.Machine.TakeOver | src/ethereum/EVM.cpp:252 | The callee's gas, and at most one charge for each lookup in its run, is added modulo 2^32; a wrap uses up one of the budget |
| Interpreter.Machine.TickEVMRaw | src/ethereum/EVM.cpp:350-1008 | The tick is what the instruction at the program counter does to counter, stack, memory and gas (`VisitOk`), ADD, SUB and LT stated by what undoes them, with the nested run of a call, and without events either gas grows or the counter moves on |
| Interpreter.Machine.RunEVMRaw | src/ethereum/EVM.cpp:1011-1044 | The run ends for every bytecode and every budget, its ticks follow one from the other from the state at the start to the one at the end (`RunOk`), the outcome is the last tick's or out of gas, and the budget used is exactly the overspent calls and counter wraps in it and in the runs nested in it |
| Interpreter.Halts | src/ethereum/EVM.cpp:1011-1044 | Any run without an overspent call or a counter wrap, nested ones included, is not cut short and overshoots its limit by at most one instruction's own charge and what nested lookups passed to it |
| Interpreter.NothingPassed | src/ethereum/EVMSimulationContext.cpp:199-209 | A run without code lookups has nothing passed to it, so the bound is then the limit and one charge |
| Interpreter.WrapsLate | src/ethereum/EVM.cpp:252 | Where nothing nested is overspent or wraps, wrapping the counter takes more than 2^30 gas of nested lookups |
| Interpreter.DescendsEvents | src/ethereum/EVM.cpp:218-225 | Every run of a frame that nests n + 1 overspent calls is cut short or contains more than n of them |
| Interpreter.StraightSteps | src/ethereum/EVM.cpp:1033-1041 | As long as the code only pushes, a run's states are those of the pushes |
| Interpreter.SelfCallDescends | src/ethereum/EVM.cpp:218-225 | A nine-byte program with 30 gas nests overspent calls n deep, for every n |
| Interpreter.SelfCallNeverEnds | src/ethereum/EVM.cpp:1011-1044 | No run of that program, whatever its length and depth, ends otherwise than by being cut short |
| Interpreter.RunSelfCall | src/ethereum/EVM.cpp:1011-1044 | The machine on that program exhausts every budget: the code never halts |
| Interpreter.Machine.Other | src/ethereum/EVM.cpp:350-1008 | Opcodes whose effect is not modelled keep the machine valid and charge within the bound |
| FibonacciHeap.Node.AddChild | src/util/FibbonacciHeap.cpp:52-65 | The child ring stays a circular doubly linked list with the new node second; degree and parent follow |
| FibonacciHeap.RingInsert | src/util/FibbonacciHeap.cpp:57-61 | The four pointer writes splice the node in right after the first child |
| FibonacciHeap.ShapeJoin | src/util/FibbonacciHeap.cpp:177-179 | Two heap-ordered binomial trees of degree d make one of degree d + 1 |
| FibonacciHeap.JoinWithin | src/util/FibbonacciHeap.cpp:170-177 | Linking keeps every tree of the heap a heap-ordered binomial tree |
| FibonacciHeap.MergeParts | src/util/FibbonacciHeap.cpp:177 | The trees still partition the nodes after a link |
| FibonacciHeap.Link | src/util/FibbonacciHeap.cpp:170-179 | A link keeps the forest and takes exactly the linked root off it |
| FibonacciHeap.PromoteParts | src/util/FibbonacciHeap.cpp:118-130 | Replacing a root by its children's trees partitions the other nodes |
| FibonacciHeap.TreeInForest | src/util/FibbonacciHeap.cpp:159-182 | A root of degree d heads exactly 2^d nodes, none of smaller priority |
| FibonacciHeap.DegreeBound | src/util/FibbonacciHeap.cpp:163-171 | A root's degree is at most floor(log2 count), so the degree table is long enough |
| FibonacciHeap.LeastRoot | src/util/FibbonacciHeap.cpp:101-116 | A least root is a least entry of the whole queue |
| FibonacciHeap.FileTree | src/util/FibbonacciHeap.cpp:168-181 | The inner loop ends without indexing past the table and keeps forest and table |
| FibonacciHeap.CollectRoots | src/util/FibbonacciHeap.cpp:184-193 | The new root list is exactly the table's trees, in strictly increasing degree, with a least root as min |
| FibonacciHeap.Heap.Insert | src/util/FibbonacciHeap.cpp:98-104 | The multiset of (priority, data) gains exactly the new entry |
| FibonacciHeap.Heap.GetMin | src/util/FibbonacciHeap.cpp:106-109 | The data of an entry of least priority, or the caller's buffer untouched when empty |
| FibonacciHeap.Heap.PromoteKids | src/util/FibbonacciHeap.cpp:119-132 | The walk along the ring visits every child once and ends |
| FibonacciHeap.Heap.PromoteTrees | src/util/FibbonacciHeap.cpp:118-132 | All remaining trees keep their shape while the children are cut loose |
| FibonacciHeap.RemoveNode | src/util/FibbonacciHeap.cpp:134-140 | Exactly the removed root leaves the root list |
| FibonacciHeap.Heap.DeleteMin | src/util/FibbonacciHeap.cpp:111-149 | Removes exactly one entry of least priority, or answers 0 when empty; nothing else is lost or duplicated |
| FibonacciHeap.Heap.Consolidate | src/util/FibbonacciHeap.cpp:159-194 | Terminates, keeps every node, and leaves at most one root per degree |
| FibonacciHeap.ContentsSize | src/util/FibbonacciHeap.cpp:155-157 | The multiset of entries has as many elements as there are nodes |
| FibonacciHeap.Heap.Size | src/util/FibbonacciHeap.cpp:155-157 | count is the size of the multiset |
| FibonacciHeap.Heap.IsEmpty | src/util/FibbonacciHeap.cpp:151-153 | count is 0 exactly when the multiset is empty |
| FibonacciHeap.Heap.Replay | src/util/FibbonacciHeap.cpp:98-194 | Over every sequence of insertions and deletions the queue stays well formed, answers as a multiset of entries would, and counts its entries |
| FibonacciHeap.TakesDelete | src/util/FibbonacciHeap.cpp:111-149 | A replay of deletions only, no more than there are entries, is an uninterrupted deletion run |
| FibonacciHeap.Heap.Drain | src/util/FibbonacciHeap.cpp:111-149 | Emptying the queue gives exactly its entries in nondecreasing priority |
| FibonacciHeap.DeletionsSort | src/util/FibbonacciHeap.cpp:111-149 | Uninterrupted deletions come out in nondecreasing priority, and emptying the queue returns exactly its entries |
| Sha256.PadLength | src/crypto/picosha2.h:205-233 | Padding fills whole 64-byte blocks with as few bytes as possible (section 5.1.1 of FIPS 180-4) |
| Sha256.PadBits | src/crypto/picosha2.h:205-233 | Bit by bit, highest first: the message, a one, the fewest zeros that reach 448 modulo 512, and the length in bits in 64 bits (section 5.1.1 of FIPS 180-4) |
| Sha256.StateBytesAt | src/crypto/picosha2.h:236-243 | Byte i of word w of the digest is the word shifted right by 24 - 8 i bits |
| Sha256.FoldNext | src/crypto/picosha2.h:193-203 | Each further block is compressed once, into the state so far |
| Bytes.FirstByte | src/crypto/picosha2.h:274-278 | The first of big-endian bytes is the most significant one |
| Bytes.BytesNumber | src/crypto/picosha2.h:274-278 | Big-endian bytes are the number's bits, most significant first |
| Bytes.SameValue | src/crypto/picosha2.h:274-278 | Bits and bytes stand for the same number |
| Sha256.PadInjective | src/crypto/picosha2.h:205-233 | No two messages below 2^61 bytes share a padding |
| Sha256.FoldAppend | src/crypto/picosha2.h:103-107 | Compressing whole blocks in two portions is compressing them in one |
| Sha256.CarryDigit | src/crypto/picosha2.h:249-257 | One digit of the base-65536 carry chain keeps the value |
| Sha256.DigitBytesValue | src/crypto/picosha2.h:274-278 | The four digits written high byte first are the 64-bit big-endian value |
| Sha256.LastBlock | src/crypto/picosha2.h:211-231 | With at most 55 bytes left, one block completes the padded message |
| Sha256.LastTwoBlocks | src/crypto/picosha2.h:211-231 | With more than 55 bytes left, two blocks complete it |
| Sha256.Hasher.AddToDataLength | src/crypto/picosha2.h:246-258 | The four digits hold the byte count exactly, below 2^64 |
| Sha256.Hasher.BitLengthDigits | src/crypto/picosha2.h:264-272 | The digit-wise shift multiplies the count by eight without loss |
| Sha256.Hasher.WriteDataBitLength | src/crypto/picosha2.h:259-279 | Eight bytes of the block become the bit length; the others stay |
| Sha256.Hasher.Process | src/crypto/picosha2.h:193-203 | After any sequence of calls the state is that of the whole message so far, however it was split |
| Sha256.Hasher.Finish | src/crypto/picosha2.h:205-233 | The digest is the fold of the compression function over the padded message |
| Sha256.Hasher.GetHashBytes | src/crypto/picosha2.h:236-243 | The state's words in big-endian bytes, cut to the room there is |
| Sha256.FillBuffer | src/crypto/picosha2.h:317-323 | One buffer of input: full, or what is left |
| Sha256.HashChunked | src/crypto/picosha2.h:310-328 | For every positive buffer size the output is the digest of the whole input |
| Sponge.AbsorbAppend | src/util/keccak.cpp:124-130 | Absorbing in two portions of whole blocks is absorbing in one |
| Sponge.LastBlock | src/util/keccak.cpp:142-146 | XORing delimiter and last bit first, then the partial block, is XORing the padded block |
| Sponge.TailBits | src/util/keccak.cpp:142-144 | Bit by bit, the tail is the domain suffix followed by pad10*1 (section 5.1 of FIPS 202), for the three delimiters in use |
| Sponge.PaddedBits | src/util/keccak.cpp:139-146 | The bits absorbed are the message's, the domain suffix and pad10*1, up to a whole number of rates |
| Sponge.XorBits | src/util/keccak.cpp:117 | Bit by bit, XOR is true exactly where the operands differ |
| Sponge.XorBlockBits | src/util/keccak.cpp:117 | Absorbing a block flips exactly the bits of the state where the block has a one |
| Sponge.PadInjective | src/util/keccak.cpp:142-146 | No two messages share a padding |
| Sponge.SqueezePrefix | src/util/keccak.cpp:149-151 | A shorter output is a prefix of a longer one |
| Sponge.SqueezeAt | src/util/keccak.cpp:149-151 | Output byte q rate + r is byte r of the state after q further permutations |
| Sponge.AbsorbInput | src/util/keccak.cpp:139-148 | In-place absorption equals the sponge's absorption of the padded message |
| Sponge.SqueezeOutput | src/util/keccak.cpp:149-151 | In-place squeezing writes exactly the sponge's output and nothing past it |
| Sponge.HashInto | src/util/keccak.cpp:133-154 | The whole hash equals the sponge construction (section 4 of FIPS 202), or -1 with the output untouched |
| Rlp.MinimalValue | src/ethereum/RLPEncoder.cpp:20-30 | Minimal bytes hold the integer and start with no zero |
| Rlp.HeaderUnique | src/ethereum/RLPEncoder.cpp:59-75 | A standard length prefix determines length and kind, whatever follows it |
| Rlp.HeaderReads | src/ethereum/RLPEncoder.cpp:59-75 | Reading a standard prefix gives the length back, from the first byte up to 55 and from the big-endian bytes it announces above (Appendix B) |
| Rlp.SingleBytes | src/ethereum/RLPEncoder.cpp:32-39 | One byte below 0x80 is written as itself and is its own encoding; every other string starts with 0x80 or more, as written and as standard |
| Rlp.WrittenLengthBytes | src/ethereum/RLPEncoder.cpp:63-74 | From 56 on, the prefix written is the count and then the length's bytes above its highest zero byte, least significant first |
| Rlp.ListHeaderReads | src/ethereum/RLPEncoder.cpp:82-91 | The list prefix written announces the right number of bytes, which are the length's, least significant first |
| Rlp.Unique | src/ethereum/RLPEncoder.h:27-46 | No standard encoding is the start of another, so bytes decode in one way only, nested lists included |
| Rlp.WrittenLengthRight | src/ethereum/RLPEncoder.cpp:59-75 | The prefix encodeLength writes is the standard one if and only if the length is below 56 or is four nonzero bytes that read the same both ways |
| Rlp.WrittenStringRight | src/ethereum/RLPEncoder.cpp:32-39 | The same boundary for whole byte strings |
| Rlp.WrittenListHeaderRight | src/ethereum/RLPEncoder.cpp:77-94 | The list prefix is standard if and only if the length is below 56 or its bytes read the same both ways; always below 256 |
| Rlp.BitsBytes | src/ethereum/RLPEncoder.h:38 | The bit count rounded up to bytes is the number of minimal bytes |
| Rlp.LittleMinimal | src/ethereum/RLPEncoder.cpp:46-47 | The stored low-first bytes, cut and reversed, are the minimal bytes |
| Rlp.Encoder.EncodeLength | src/ethereum/RLPEncoder.cpp:59-75 | Appends exactly the prefix the lemmas are about |
| Rlp.Encoder.EncodeString | src/ethereum/RLPEncoder.cpp:32-39 | Appends exactly the string encoding the lemmas are about |
| Rlp.Encoder.EncodeReversed | src/ethereum/RLPEncoder.cpp:41-49 | Appends the encoding of the reversed bytes |
| Rlp.Encoder.EncodeNumber | src/ethereum/RLPEncoder.cpp:20-30 | Appends the standard encoding of every 64-bit integer |
| Rlp.Encoder.EncodeWide | src/ethereum/RLPEncoder.h:36-41 | Appends the standard encoding of every 256-bit integer |
| Rlp.Encoder.EncodeListStartAtOffset | src/ethereum/RLPEncoder.cpp:77-94 | Fills the end of the gap with the prefix and changes nothing else |
| Transactions.FieldBytes | src/ethereum/EthereumTransactionBuilder.cpp:30-38 | The nine fields' standard encodings, one after another, are the list payload |
| Transactions.EnvelopeFields | src/ethereum/EthereumTransactionBuilder.cpp:30-48 | The fields in the order of EIP-1559, each holding its value in minimal big-endian bytes, the address most significant byte first |
| Transactions.NotBothPalindromes | src/ethereum/RLPEncoder.cpp:59-94 | If the calldata's and the list's length bytes both read the same both ways, the lengths are more than 256 apart, which the other fields are too short for |
| Transactions.FrameExact | src/ethereum/EthereumTransactionBuilder.cpp:37-41 | A frame around a calldata string is the standard one if and only if the string has at most 55 bytes |
| Transactions.EnvelopeExact | src/ethereum/EthereumTransactionBuilder.cpp:30-51 | For every transaction, the signed message and the exported bytes are the standard EIP-1559 ones if and only if the calldata is at most 55 bytes, and the payload is then at most 211 bytes |
| Transactions.EnvelopeUnique | src/ethereum/EthereumTransactionBuilder.cpp:22-57 | The envelope's bytes determine all twelve fields |
| Transactions.CloseList | src/ethereum/EthereumTransactionBuilder.cpp:40-41 | Type byte and list prefix end up right before the payload, which is untouched |
| Transactions.SignAndExport | src/ethereum/EthereumTransactionBuilder.cpp:22-57 | From index out[0] on, the output is the framed payload with a signature over the framed unsigned fields, though the prefix is written twice into one gap; with at most 55 bytes of calldata it is the standard envelope |

## Left out

- Curve.AddPoints: uses exact field subtraction; `LimbCurve.AddLimbs` is the code's own.
- LimbCurve.SumExact: goes one way, likewise `LimbCurve.MultipleIsTimes`; that a lost borrow in one subtraction is never made up for by another is not claimed.
- Ecdsa.Sign: a zero nonce, for which the code draws randomness, is an argument like any other; a zero s is returned as a request to retry, which `Ecdsa.SignAlways` follows up.
- Ecdsa.SignAlways: asks for 10 < N and P < 2N, which `Ecdsa.CurveConstants` proves of the source's constants.
- Ecdsa.RecoverExactly: is about the recovery ids 0 and 1, the only ones the source says it is given; `Ecdsa.RecoverKey` covers every id.
- Curve.ScalarMul: uses exact field subtraction; `LimbCurve.ScalarMulLimbs` is the code's own.
- Ecdsa.RecoverKey: uses exact field subtraction; primality of P and N, associativity of point addition and the order of the generator are hypotheses.
- Contexts.Context.RunEVMRaw: a contract is any function from what it has observed to its next action, with a step budget in place of gas; gas itself is in `Interpreter`, where the provider's answers are arbitrary.
- Contexts.Context.TickEVMRaw: covers the actions that reach the world: balance, sload, sstore, calls and halts.
- Contexts.Context.CallRaw: the out-of-gas guard and the gas forwarded are in `Interpreter`; a step budget stands in for them.
- Contexts.Context.SLoad: the gas charged for looking up an address is not in `Contexts`; `Interpreter` has it.
- Contexts.Context.WriteChangesTo: the set of warm addresses, which only gas depends on, is not carried over.
- Interpreter.Machine.Copy: MCOPY between overlapping windows is taken to read all source bytes before writing any; a source offset that is negative as a 32-bit int leaves the bytes of the window unspecified.
- Interpreter.Machine.TickEVMRaw: the effect is modelled for opcodes of each class (arithmetic, comparison, environment, memory, copy, storage, jump, push, dup, swap, log, call, halt) and for the undefined ones; the other valid opcodes go on with any stack, any bytes in a memory grown as they ask, and any charge up to the bound. Stack underflow and out-of-range list accesses give arbitrary values, since the list class is not part of this model, and the memory pointer of a halting instruction is taken to be non-null.
- Interpreter.Machine.Other: any effect within the bounds stands for the opcodes not modelled one by one.
- Interpreter.Machine.GenerateCall: whether looking up an address charges 2500 gas is arbitrary, because it depends on what the hash set's add returns, and that container is not part of this model. Code named by a delegation prefix is not looked up.
- Interpreter.Machine.TakeOver: a lookup in a nested frame goes through the caches of the frames around it and may charge each of them; which of them do is arbitrary, and the charges are added when the call returns.
- Interpreter.Machine.Precompiled: any bytes of memory may have been written; writes past the end of memory are not modelled.
- Transient.TransientFrame.Run: looks at transient storage alone; accounts and storage of the same frames are in `Contexts`. A frame makes a bounded number of moves in place of gas.
- FibonacciHeap.Heap.Replay: stands, like Drain, for an arbitrary caller, which the source does not contain; neither adds behaviour of its own.
- Interpreter.RunSelfCall: stands for a caller that runs one program.
- FibonacciHeap.Heap.DeleteMin: priorities are integers, a total order in place of doubles, and the table size uses an integer logarithm; freeing a node is dropping it from the node set. The list's unorderedRemove is taken to move the last element into the hole.
- Sha256.HashChunked: the 64 rounds of the compression function are an arbitrary function of state and block.
- Sponge.HashInto: the permutation is an arbitrary function of the state, and the input is a sequence, so the check for a null input pointer does not appear.
- Transactions.SignAndExport: covers an empty access list; the length computed for a non-empty entry omits its payload, so nothing standard would follow. Output sizes are below 2^31, the range of the code's int indices.
- Python bindings, command line, tracers, printing, the older transaction encoder and the network providers: glue without results of their own.
- Contract creation, self-destruction and the return-data buffer: refused by the code or copied verbatim.
- Floating point, randomness and the inner rounds of both hash functions.
