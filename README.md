# BN254 extension-field arithmetic and M-PIN control logic, in Dafny

This project models three parts of the `bn254` Python package, a port of the
Apache Milagro BN254 pairing library:

- `Fp2`, the quadratic extension Fp[i]/(i^2 + 1) of the curve's base field;
- `Fp4`, the quartic extension Fp2[j]/(j^2 - (1 + i)) towered over it;
- the M-PIN protocol functions built on the curve: `H`, `extract_pin`,
  `client_2`, `server`, `add_G1`, `add_G2` and the Pollard-kangaroo search
  `kangaroo`.

Files:

- `fp.dfy` (module `Fp`): the base field, as canonical residues modulo the
  BN254 prime P. It supplies the ring laws the two extensions rely on.
  - Addition, subtraction and negation reduce by one conditional correction.
    `AddRep`, `SubRep` and `NegRep` show that this is the residue of the
    integer result.
  - Multiplication is defined by shift-and-add over the bits of the second
    factor, so no intermediate value exceeds 2P. `MulIsProduct` shows that it
    is the residue of the integer product.
  - Inversion runs the extended Euclidean algorithm. `Fp.InverseCorrect`
    proves it correct under the hypothesis that P is prime.
- `fp2.dfy` and `fp4.dfy`: each defines a value datatype (`Fp2`, `Fp4`) and
  its pure operators as functions.
  - The in-place operators `+=`, `-=`, `*=`, `sqr` and `times_i` are methods
    of a class (`Fp2Var`, `Fp4Var`) whose fields `a` and `b` they overwrite
    step by step, as the Python code does.
  - Each of these methods is proved to leave the object holding what the
    pure, schoolbook operator returns: Karatsuba multiplication and the
    dedicated squaring paths agree with the generic product.
  - `__mul__` is the method `Times`. It copies its left operand, then squares
    or multiplies the copy.
- `mpin.dfy` (module `Mpin`): the protocol logic.
  - The curve, the encodings and the pairing enter through the interface
    value `Curve`. The Fp12 arithmetic used by the kangaroo search enters
    through `Group`.
  - Where a property needs an algebraic law of those operations, it takes
    the law as a precondition: `Lawful` for the Fp12 operations, `G1Laws`
    for G1.
  - The kangaroo loops are proved against specification functions: `Walk`
    follows the jump rule (the table index is the key of the current
    position mod TS), and `WildFrom` gives the wild walk's answer jump by jump.

`times_i` in `Fp2` is a plain coordinate swap, as the code has it. It is not
multiplication by i: `Fp2.TimesIIsIConj` shows that it equals
i * conj(x). The quartic `times_i` built on it therefore agrees with
multiplication by j only when the imaginary part of the j-coefficient is
zero (`Fp4.TimesIVersusMulQNR`). The model keeps this behaviour as written.

## Model

| member | source | states |
|---|---|---|
| Fp2.Fp2Var.constructor | bn254/fp2.py:19-29 | the new object holds the given components |
| Fp2.Fp2Var.IAdd | bn254/fp2.py:45-48 | after `x += y` the object holds x + y, componentwise mod p |
| Fp2.Fp2Var.ISub | bn254/fp2.py:53-56 | after `x -= y` the object holds x - y |
| Fp2.Fp2Var.Sqr | bn254/fp2.py:67-72 | the (a + b)(a - b), 2ab steps leave the product x * x of Fp[i]/(i^2 + 1) |
| Fp2.Fp2Var.TimesI | bn254/fp2.py:74-78 | the object holds (b, a): a swap with no negation |
| Fp2.Fp2Var.IMul | bn254/fp2.py:80-89 | the three-multiplication Karatsuba steps leave (a1 a2 - b1 b2, a1 b2 + a2 b1) |
| Fp2.Times | bn254/fp2.py:91-97 | `x * y` returns the product whether it takes the squaring or the multiplying branch, and changes neither operand |
| Fp2.IsZero | bn254/fp2.py:114-117 | true exactly when both components are 0 |
| Fp2.IsOne | bn254/fp2.py:119-122 | true exactly when a = 1 and b = 0 |
| Fp2.ISquaredIsMinusOne | bn254/fp2.py:80-89 | the product makes i * i = -1, so it is multiplication in Fp[i]/(i^2 + 1) |
| Fp2.MulComm | bn254/fp2.py:80-89 | the product is commutative |
| Fp2.MulAssoc | bn254/fp2.py:80-89 | the product is associative |
| Fp2.MulAddDistrib | bn254/fp2.py:80-89 | the product distributes over addition |
| Fp2.MulSubDistrib | bn254/fp2.py:80-89 | the product distributes over subtraction |
| Fp2.Add | bn254/fp2.py:42-43 | computes the componentwise sum mod p; its properties are stated by `AddSubRoundTrip`, `AddComm`, `AddAssoc` and `ConjAdd` |
| Fp2.Sub | bn254/fp2.py:50-51 | computes the componentwise difference mod p; `AddSubRoundTrip` shows it undoes `Add` |
| Fp2.Neg | bn254/fp2.py:105-106 | computes the componentwise negation mod p; `AddNegSelf` shows it is the additive inverse |
| Fp2.Conj | bn254/fp2.py:64-65 | computes (a, -b); `ConjInvolution`, `ConjAdd`, `ConjMul` and `MulConjIsNorm` state its properties |
| Fp2.AddComm | bn254/fp2.py:42-43 | addition is commutative |
| Fp2.AddAssoc | bn254/fp2.py:42-43 | addition is associative |
| Fp2.AddZero | bn254/fp2.py:42-43 | zero is neutral for addition on either side |
| Fp2.MulUnits | bn254/fp2.py:80-89 | zero annihilates and one is neutral in the product, on either side |
| Fp2.AddSubRoundTrip | bn254/fp2.py:42-56 | subtracting y undoes adding y, and the other way round |
| Fp2.AddNegSelf | bn254/fp2.py:105-106 | -x + x is zero |
| Fp2.NegInvolution | bn254/fp2.py:105-106 | negating twice gives x back |
| Fp2.MulNeg | bn254/fp2.py:105-106 | x * (-y) is -(x * y) |
| Fp2.ConjInvolution | bn254/fp2.py:64-65 | conjugating twice gives x back |
| Fp2.ConjAdd | bn254/fp2.py:64-65 | conjugation is additive |
| Fp2.ConjMul | bn254/fp2.py:64-65 | conjugation is multiplicative, so it is the Frobenius map of Fp2 |
| Fp2.MulConjIsNorm | bn254/fp2.py:138-140 | x * conj(x) has imaginary part 0 and real part a^2 + b^2 |
| Fp2.InverseCorrect | bn254/fp2.py:138-144 | for prime p and a^2 + b^2 nonzero, x * inverse(x) is one |
| Fp2.Muls | bn254/fp2.py:102-103 | `muls(s)` is the product with the base-field element s embedded as s + 0i |
| Fp2.Inverse | bn254/fp2.py:138-144 | x * inverse(x) is the base-field element N * N^-1, with N = a^2 + b^2 the norm; so it is one whenever the base-field inverse of N is |
| Fp2.MulMuls | bn254/fp2.py:102-103 | scaling a factor by a base-field scalar scales the product |
| Fp2.MulI | bn254/fp2.py:99-100 | `muli(n)` is `muls` by the residue of n, so a negative n wraps around p |
| Fp2.TimesIIsIConj | bn254/fp2.py:74-78 | the swap equals i * conj(x), and swapping twice restores x |
| Fp2.MulQNR | bn254/fp2.py:135-136 | `mulQNR` is multiplication by 1 + i |
| Fp2.MulQNRMul | bn254/fp2.py:135-136 | multiplying a factor by 1 + i multiplies the product by 1 + i |
| Fp2.MulQNRNeg | bn254/fp2.py:135-136 | `mulQNR` commutes with negation |
| Fp2.MulQNRAdd | bn254/fp2.py:135-136 | `mulQNR` is additive |
| Fp2.Div2 | bn254/fp2.py:146-149 | the result doubled is x |
| Fp2.HalveDouble | bn254/fp2.py:146-149 | halving a double gives the element back |
| Fp2.DivQNR | bn254/fp2.py:151-153 | multiplying the result by 1 + i gives x back: `divQNR` is division by 1 + i |
| Fp2.DivQNR2 | bn254/fp2.py:155-157 | multiplying the result by 1 + i gives 2x: `divQNR2` is division by 1 + i without the halving |
| Fp2.DivQNRRoundTrip | bn254/fp2.py:135-157 | `divQNR` also undoes `mulQNR` from the other side, and `divQNR2(x)` is twice `divQNR(x)` |
| Fp2.DivQNR2OfMulQNR | bn254/fp2.py:155-157 | `divQNR2(mulQNR(x))` is 2x |
| Fp4.Fp4Var.constructor | bn254/fp4.py:17-27 | the new object holds the given components |
| Fp4.Fp4Var.IAdd | bn254/fp4.py:43-46 | after `x += y` the object holds x + y |
| Fp4.Fp4Var.ISub | bn254/fp4.py:51-54 | after `x -= y` the object holds x - y |
| Fp4.Fp4Var.Sqr | bn254/fp4.py:65-72 | the in-place steps leave (a^2 + (1 + i) b^2, 2ab), the product x * x of Fp2[j]/(j^2 - (1 + i)) |
| Fp4.Fp4Var.TimesI | bn254/fp4.py:74-81 | the object holds (b + swap(b), a) |
| Fp4.Fp4Var.IMul | bn254/fp4.py:83-92 | the Karatsuba steps leave (a1 a2 + (1 + i) b1 b2, a1 b2 + a2 b1) |
| Fp4.Times | bn254/fp4.py:94-100 | `x * y` returns the product on both branches and changes neither operand |
| Fp4.IsZero | bn254/fp4.py:114-117 | true exactly when both Fp2 components are zero |
| Fp4.IsOne | bn254/fp4.py:119-122 | true exactly when a is one and b is zero |
| Fp4.Add | bn254/fp4.py:40-41 | computes the sum over Fp2 componentwise; its properties are stated by `AddSubRoundTrip`, `AddComm`, `AddAssoc` and `PowQAdd` |
| Fp4.Sub | bn254/fp4.py:48-49 | computes the difference over Fp2 componentwise; `AddSubRoundTrip` shows it undoes `Add` |
| Fp4.Neg | bn254/fp4.py:105-106 | computes the componentwise negation; `AddNegSelf` shows it is the additive inverse |
| Fp4.Conj | bn254/fp4.py:62-63 | computes (a, -b); `ConjInvolution` and `MulConjIsNorm` state its properties |
| Fp4.AddComm | bn254/fp4.py:40-41 | addition is commutative |
| Fp4.AddAssoc | bn254/fp4.py:40-41 | addition is associative |
| Fp4.AddZero | bn254/fp4.py:40-41 | zero is neutral for addition on either side |
| Fp4.MulAddDistrib | bn254/fp4.py:83-92 | the product distributes over addition |
| Fp4.MulUnits | bn254/fp4.py:83-92 | zero annihilates and one is neutral in the product, on either side |
| Fp4.JSquared | bn254/fp4.py:83-92 | j * j is 1 + i, so the product is multiplication in Fp2[j]/(j^2 - (1 + i)) |
| Fp4.MulComm | bn254/fp4.py:83-92 | the product is commutative |
| Fp4.KaratsubaIdentity | bn254/fp4.py:83-92 | (b1 + a1)(a2 + b2) - a1 a2 - b1 b2 equals the cross term a1 b2 + a2 b1 |
| Fp4.SqrSteps | bn254/fp4.py:65-72 | the intermediate values of `sqr` give both components of x * x |
| Fp4.MulQNR | bn254/fp4.py:135-136 | `mulQNR` is multiplication by j |
| Fp4.TimesIVersusMulQNR | bn254/fp4.py:74-81 | `times_i` equals multiplication by j exactly when the imaginary part of b is zero |
| Fp4.ConjInvolution | bn254/fp4.py:62-63 | conjugating twice gives x back |
| Fp4.MulConjIsNorm | bn254/fp4.py:138-140 | x * conj(x) has zero j-component and real part a^2 - (1 + i) b^2 |
| Fp4.Muls | bn254/fp4.py:102-103 | `muls(s)` is the product with the Fp2 element s embedded as s + 0j |
| Fp4.Inverse | bn254/fp4.py:138-144 | x * inverse(x) is the Fp2 element N * N^-1, with N = a^2 - (1 + i) b^2 the norm; so it is one whenever the Fp2 inverse of N is |
| Fp4.MulMuls | bn254/fp4.py:102-103 | scaling a factor by an Fp2 scalar scales the product |
| Fp4.InverseCorrect | bn254/fp4.py:138-144 | for prime p, when the Fp2 norm of the quartic norm is nonzero, x * inverse(x) is one |
| Fp4.AddSubRoundTrip | bn254/fp4.py:40-54 | subtracting y undoes adding y, and the other way round |
| Fp4.AddNegSelf | bn254/fp4.py:105-106 | -x + x is zero |
| Fp4.PowQ | bn254/fp4.py:146-149 | on the subfield Fp2 (b = 0) `powq` is conjugation |
| Fp4.PowQAdd | bn254/fp4.py:146-149 | `powq` is additive |
| Fp4.PowQMul | bn254/fp4.py:146-149 | `powq` is multiplicative whenever (Fra + Frb i)^6 is -i |
| Mpin.PowDouble | bn254/mpin.py:172-176 | `usqr` turns f^(2^m) into f^(2^(m+1)) |
| Mpin.BuildTable | bn254/mpin.py:169-176 | the table has TS entries, with distance[m] = 2^m and table[m] = f^(2^m) |
| Mpin.Jump | bn254/mpin.py:182-184 | a jump by table[i] adds distance[i] to the exponent, and 1 <= distance[i] <= 2^(TS-1) = 512 |
| Mpin.WalkPosition | bn254/mpin.py:181-184 | after k jumps chosen by key mod TS, a kangaroo released at s sits at s * f^d, having travelled k <= d <= 512k |
| Mpin.WalkMonotone | bn254/mpin.py:195-197 | over the jump table every jump travels at least 1, so the distance strictly increases: after j - i more jumps it has grown by at least j - i |
| Mpin.SetTrap | bn254/mpin.py:178-184 | the trap (t, dn) is where the tame kangaroo stands after TRAP jumps from 1 by the key rule; t = f^dn and TRAP <= dn <= TRAP * 2^(TS-1) |
| Mpin.WildWalk | bn254/mpin.py:186-207 | the loop returns the answer of `WildFrom`, the key-rule walk from E watched for t and conj(t) under the 4 * TRAP step bound and the MAXPIN distance bound |
| Mpin.WildFirstLanding | bn254/mpin.py:191-207 | if jump j is the first to land on t or conj(t), within 4 * TRAP jumps and with dm - dn < MAXPIN, the answer is dm - dn on t and dn - dm on conj(t) |
| Mpin.WildNonzeroIsLanding | bn254/mpin.py:191-207 | a nonzero answer comes from such a first landing; so the answer is 0 when the step bound or dm - dn >= MAXPIN is reached before any landing |
| Mpin.JumpTableUnique | bn254/mpin.py:169-176 | the table `BuildTable` returns is the one determined by f |
| Mpin.Kangaroo | bn254/mpin.py:158-207 | `kangaroo(E, F)` returns `KangarooAnswer`: the wild walk from E against the trap set by TRAP tame jumps, over the table of f |
| Mpin.KangarooSound | bn254/mpin.py:178-207 | a nonzero answer r means E * f^dm = f^dn with r = dm - dn < MAXPIN, or E * f^dm = conj(f^dn) with r = dn - dm > -MAXPIN, where TRAP <= dn <= 512 TRAP is the trap distance |
| Mpin.TameMatchIsLog | bn254/mpin.py:178-207 | if E = f^k and `kangaroo` answers r != 0, then with dn the trap distance f^(k + dn + r) = f^dn (a landing on t) or f^(k + dn - r) = conj(f^dn) (a landing on conj(t)) |
| Mpin.KangarooBoundOneSided | bn254/mpin.py:191-207 | the MAXPIN cut-off is one-sided: in the lawful group (int, +) with key 9 everywhere and f = 1, E = f^101888, an offset ten times MAXPIN, lands on the trap f^102400 (512 ahead) after one jump and gets the nonzero answer -101888 |
| Mpin.FirstAcceptedExists | bn254/mpin.py:29-33 | if some candidate from the start on is accepted, a first accepted candidate exists |
| Mpin.FirstAcceptedUnique | bn254/mpin.py:29-33 | the first accepted candidate is unique |
| Mpin.H | bn254/mpin.py:24-44 | the point comes from the first candidate from digest mod p on that `ECp.set` accepts, multiplied by the cofactor only when the cofactor is not 1 |
| Mpin.ModulusWidth | bn254/mpin.py:35 | p has 254 bits |
| Mpin.CofactorQuotient | bn254/mpin.py:38-39 | (2^129 + p) div r is 1 |
| Mpin.Cofactor | bn254/mpin.py:34-39 | the cofactor (2^((bitlen(p) + 4) div 2) + p) div r is 1 for the BN254 prime |
| Mpin.ClearCofactor | bn254/mpin.py:41-42 | so the cofactor step returns the point unchanged, and `H` never multiplies the point it found |
| Mpin.BlindingScalar | bn254/mpin.py:106-107 | r - ((x + y) mod r) lies in [1, r] and adding it to x + y gives a multiple of r |
| Mpin.TokenOf | bn254/mpin.py:70-78 | the token is SK - PIN * H(ID) encoded, or the empty byte string when SK does not decode |
| Mpin.ExtractPin | bn254/mpin.py:70-78 | `extract_pin` returns that token for the point `H` finds |
| Mpin.ClientProofOf | bn254/mpin.py:97-112 | V = r_blind * (TK + PIN * H(ID)) encoded, or the empty byte string when TK does not decode |
| Mpin.Client2 | bn254/mpin.py:97-112 | `client_2` returns that V for the point `H` finds |
| Mpin.TokenRoundTrip | bn254/mpin.py:70-112 | with the right PIN, `client_2` applied to the token of S computes r_blind * S |
| Mpin.ServerVerdictOf | bn254/mpin.py:117-150 | (False, Fp12(), Fp12()) if SS fails to decode; (False, empty, empty) if U or V fails to decode; (True, empty, empty) exactly when the final-exponentiated pairing is one; otherwise (False, E, F) with the two diagnostic encodings |
| Mpin.Server | bn254/mpin.py:117-150 | `server` returns that verdict for the point `H` finds |
| Mpin.AddG1 | bn254/mpin.py:210-219 | None exactly when either operand fails to decode, otherwise the encoded sum |
| Mpin.AddG2 | bn254/mpin.py:222-231 | None exactly when either operand fails to decode, otherwise the encoded sum |
| Mpin.AddG1Encoded | bn254/mpin.py:210-219 | on encoded points `add_G1` is point addition followed by encoding |
| Mpin.AddG2Encoded | bn254/mpin.py:222-231 | on encoded points `add_G2` is point addition followed by encoding |

## Left out

- The base field class (bn254/fp.py) is not part of this model. `Fp` stands in for it:
  - canonical residues modulo P;
  - `div2` as exact halving;
  - `inverse` by the extended Euclidean algorithm;
  - multiplication by shift-and-add, equal to (x * y) mod P;
  - `muli` as (x * n) mod P.
- The primality of P is not proved. The inverse lemmas take it as a precondition.
- Fp2.InverseCorrect: assumes a^2 + b^2 is nonzero instead of deriving it from x being nonzero. Deriving it needs -1 to be a non-residue mod P.
- Fp4.InverseCorrect: likewise assumes the Fp2 inverse's condition on the quartic norm.
- Fp4.PowQMul: the curve constants Fra and Frb are not part of this model.
  - They enter as the parameter `frob`.
  - Multiplicativity is proved under the condition that the cube of `frob` squares to -i.
- Fp4 components are stored as values. The model does not capture sharing of one Fp2 object between two Fp4 objects, which `set` or `self.b = self.a` could create in Python.
- The following are left out as pretty-printing, accessors or randomness, with nothing to state: `copy`, `get`, `set`, `real`, `imaginary`, `__str__`, `__ne__` and `rand`.
- The curve, the pairing and Fp12 (ECp, ECp2, `pair.double_ate`, `pair.fexp`, `pair.e`, `Fp12`) are not part of this model.
  - They are interface values with uninterpreted operations.
  - Pairing bilinearity, and so protocol completeness and soundness, is not stated.
- Hashing and byte conversion are parameters: the digest of the identity under the curve's designated hash, `big.from_bytes` of X and Y, and `kangaroo`'s decoding of E and F.
- `random_generate`, `get_server_secret`, `get_client_secret` and `client_1` are single calls into the curve library or the random generator, with nothing to state.
- Mpin.H: requires that some candidate from digest mod p on be accepted. Without one the Python loop runs forever, and that run is not modelled. ExtractPin, Client2 and Server inherit the precondition.
- Mpin.Kangaroo: pins the answer to the deterministic walk and its first landing on the trap, but does not state that the walk meets the trap for every PIN error below MAXPIN, which holds only with high probability.
- Mpin.KangarooSound: the MAXPIN bound it states is one-sided, r < MAXPIN on t and r > -MAXPIN on conj(t). The code stops the wild kangaroo only when dm - dn >= MAXPIN (bn254/mpin.py:191 and 205), so a landing with dm - dn <= -MAXPIN is still answered. The model follows the code; `KangarooBoundOneSided` gives such an answer, -101888, for an offset beyond MAXPIN.
- Mpin.Kangaroo: `usqr` is taken to be squaring for all elements. In the library it is the cyclotomic squaring, which agrees with squaring on the unitary elements the pairing produces.
