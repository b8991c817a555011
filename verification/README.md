# Verified core of the exact-arithmetic checkers and canonicalizers

This project models the parts of the repository that turn finite checks into theorems, and proves the
theorems.

- **Certificates.** An accepted integer certificate of the dual linear program bounds every binary code
  (Delsarte's theorem, with the Krawtchouk values shown to be character sums). Fraction-free elimination
  is exact, its minors are determinants, and the certificate read off its tableaux exists exactly for
  the positive definite matrices.
- **Covering designs.** The check accepts exactly the coverings, the two lower bounds hold for every
  accepted list of blocks, the first always dominates the second, and the greedy search with pruning
  ends in an irredundant covering within the usual logarithmic guarantee.
- **Signatures of claims.** Signatures get a meaning of their own. Claims read by their form have the
  meaning of their signature; for claims that list residues it is said exactly when that is so.
- **Mined patterns.** Every pattern the miner hands out is true of every integer, no two share a
  signature, and the written polynomial reads back and expands to the coefficients it was written from. Which
  candidates are mined is told by their coefficients and residues alone.
- **Renderer.** The compiler from claims to Lean statements: its text reads back as one statement only,
  which means the claim wherever no variable is negative.
- **Automatic words.** Thue's theorem for the bit-count generator, the searches for powers and
  alternating blocks, the fixed points of morphisms and the canonical form under relabelling.
- **Process certificates.** Hidden Markov models, the fooling-set bound on their states, and the gap of
  the order certificates in closed form for all orders.
- **Frontier controller.** All runs stay in range; saturation forces a jump; failures bring it back.

## Reading the model

Python integers are unbounded, as `int` is. `//` and `%` round towards minus infinity; where an operand
may be negative this is `Arith.FloorDiv` and `Arith.FloorMod`, elsewhere the two notions agree.
`Fraction` is `real`, or a numerator over a denominator where clearing denominators is the point.
Exceptions are constructors of a result type. Loops and objects that change state are methods and
classes, tied by their contracts to functions about which the lemmas are proved.

The theory of determinants and of quadratic forms is written over an abstract product with the laws of
multiplication, and the product of the reals is put in at the end; this keeps the proofs short and says
that nothing else about the reals is used.

## Findings

- `bareiss_ldlt_cert` is documented to return None for a matrix that is not positive definite
  (`scripts/bareiss_ldlt.py:115`). When one of the leading minors p_1 .. p_{n-2} is zero the elimination
  divides by it and raises instead; `Ldlt.BareissLdltCert` says exactly when, and the zero matrix of order
  three is a case (`Ldlt.ZeroMatrixRaises`).
- For 0 <= t <= k <= v and k >= 1 the value of `schonheim` is a bound exactly if t >= 1 or v = k
  (`CoveringTable.SchonheimHoldsWhen`); the cell (2,1,0) is the smallest for which it is none. `validate`
  keeps such cells out.
- For 1 <= t <= k <= v the Schonheim bound is never below the counting bound, so the strongest cheap bound is
  always the former and a validated snapshot never shows an anomaly in the sweep.
- The retry of `rationalize_and_verify` is described as one grid step up (`scripts/delsarte_lp_probe.py:95`). It
  adds `q // D`, which is nothing when the common denominator is below the grid: the retry differs from the
  proposal exactly if q >= D (`Rationalize.RetryMovesWhen`), and a proposal of 1/2 on the grid of sixths is
  tried twice (`Rationalize.HalfIsNotRaised`).
- The score is described as higher at a small modulus (`leibniz/pattern_mining.py:112-119`). With as many
  residues it is exactly if 100 count < 3 m m' (`PatternMining.SmallerModulusScoresHigherWhen`): two residues
  modulo 4 score higher than two modulo 3 (`PatternMining.ThreeScoresBelowFour`). Several residues score
  higher than one exactly if 10 (count - 1) < 3 m.
- The greedy search makes progress at every step exactly if t <= k or t > v, for k <= v
  (`CoveringSearch.ProgressWhen`). With k < t <= v no block covers anything and the loop would not end; with
  t > v there is nothing to cover and the answer is the empty list.
- `_check_power_free` is documented to return the lexicographically first (start, period)
  (`leibniz/observatory_lint.py:187`); it searches by period first. The two agree exactly if of any two powers
  of the word the earlier start and the shorter period are met by one power (`WordSearch.LexFirstWhen`);
  `ThueMorse.PeriodComesFirst` has a word on which they differ.
- Two single congruences share a signature exactly in these cases (`Signatures.ClaimsShare`). If both are in
  one variable or both in several: the relation and the modulus agree, and so do the coefficients modulo m,
  for one variable by degree and, if m is prime, up to one unit. If one is in one variable and the other in
  several: relation and modulus agree and no coefficient of either survives modulo m. The documentation says
  that they do exactly if they assert the same congruence over the same literally named variables
  (`leibniz/structural.py:44-46`). That fails both ways: `b % 4 == 1` and `(b + 4*a) % 4 == 1` have the same
  coefficients and different signatures (`Signatures.ArityCounts`), and any claim in one variable keeps its
  signature when the variable is renamed (`Renaming.SingleNameDrops`).
- Folding `P % m in S` with a single actual residue r onto `== r` agrees with the claim exactly when S
  holds r, and so does folding `not in` onto `!= r`. Claims that share a signature of several residues
  agree exactly when they list the same ones of the residues the term takes.
- The vacuity test is sound when the sets of membership tests hold integer literals only;
  `Degeneracy.VariableSetsFool` is a flagged claim, with a variable in its set, that is not constant.
- A rendered variable must not be named like a function of the target language, like the first half of one
  (`Int`, `Nat`), or like a keyword: `LeanText.NamesClash` has texts that are then not read back. For the
  reader modelled here, and any set of keywords, there is no other obstacle (`Renderer.ReadableIsPlain`).
- The four statements of a faithfulness pair are not only enough for the claim: whenever they are true of
  the claim as understood, they hold (`Renderer.FaithfulIsProvable`).
- The two-mode process separates all orders exactly when 0 < q < 1, q is not 1/2 and e is not 1/2.

## Model

| member | source | states |
|---|---|---|
| Krawtchouk.KIsCharSum | scripts/delsarte_lp_probe.py:41-43 | `krawtchouk(k, i, n)` is the sum of the characters of all words of length n and weight k at any word of weight i |
| Krawtchouk.WordsComplete | scripts/delsarte_lp_probe.py:41-43 | the list the character sums run over has every word of length n and weight k, once |
| Delsarte.VerifyIntegerCert | scripts/delsarte_lp_probe.py:64-79 | accepts exactly the feasible dual polynomials and returns the floor of their value at zero; a rejection lists exactly the problems there are |
| Delsarte.PairsAreSquares | scripts/delsarte_lp_probe.py:110-113 | character sums over all pairs of codewords add up to a sum of squares |
| Delsarte.CertificateBoundsCodes | scripts/delsarte_lp_probe.py:64-79 | accepted implies A(n,d) <= bound: no binary code of length n with distinct words d apart has more words than the returned bound |
| Arith.GcdLoop | scripts/delsarte_lp_probe.py:104-107 | Euclid's loop computes the function whose value divides both arguments |
| Arith.GcdDivides | scripts/delsarte_lp_probe.py:104-107 | the result divides both arguments |
| Fractions.NumeratorsExact | scripts/delsarte_lp_probe.py:88-92 | over the common denominator `int(x * q)` loses nothing |
| Fractions.DenominatorLeast | scripts/beyond_markov_cert.py:89-91 | every common multiple of the denominators is a multiple of the folded one |
| Fractions.ClearInt | scripts/beyond_markov_cert.py:86-94 | the loop computes the least common denominator, and the integers over it are the fractions |
| Rationalize.RationalizeAndVerify | scripts/delsarte_lp_probe.py:82-101 | the answer is the first of the attempts with the least bound, there is none only if all attempts fail, and the bound holds for every code whatever was proposed; an attempt is the proposal over its least common denominator if that is feasible, otherwise the proposal with every coefficient one grid step up if that is, and otherwise nothing |
| Rationalize.AttemptTriesBoth | scripts/delsarte_lp_probe.py:88-97 | what one grid gives, told without its formulas: for the integers p and the denominator q in lowest terms, and every p raised by the most q-ths that make no more than one grid step (one q-th without a grid) |
| Rationalize.RetryMovesWhen | scripts/delsarte_lp_probe.py:95-96 | the retry differs from the proposal exactly if there is no grid or q is at least the grid |
| Rationalize.HalfIsNotRaised | scripts/delsarte_lp_probe.py:95-96 | the proposal 1/2 on the grid of sixths is retried unchanged |
| CodeBounds.HammingBoundsCodes | scripts/delsarte_reach_probe.py:47-50 | no binary code of minimum distance d has more than `hamming_ub(n, d)` words |
| CodeBounds.HammingIsLargest | scripts/delsarte_reach_probe.py:47-50 | `hamming_ub` is the largest number of balls that fit into all words of the length by their size |
| CodeBounds.SingletonBoundsCodes | scripts/delsarte_reach_probe.py:53-54 | nor more than `singleton_ub(n, d)` words |
| CodeBounds.SingletonCountsWords | scripts/delsarte_reach_probe.py:53-54 | `singleton_ub` is the number of words of length n - d + 1 |
| Determinant.EliminateFirst | scripts/bareiss_ldlt.py:92-98 | clearing the first column below a pivot factors the pivot out of the determinant |
| Elimination.Sylvester | scripts/bareiss_ldlt.py:74-76 | Sylvester's identity for the minors that border the leading block |
| Bareiss.Step | scripts/bareiss_ldlt.py:91-98 | one elimination step returns the quotients if every division is exact, and otherwise says that one is not |
| Bareiss.StepIsExact | scripts/bareiss_ldlt.py:95-97 | the remainder is zero and the quotient is the next bordered minor |
| Bareiss.Eliminate | scripts/bareiss_ldlt.py:79-103 | the loop on any table of integers related by Sylvester's identity |
| Bareiss.BareissMinors | scripts/bareiss_ldlt.py:79-103 | the remainder assertion never fires; a division by zero happens exactly when one of p_1 .. p_{n-2} is zero; otherwise minors[k] is the determinant of the leading k by k block and history[k] holds the bordered minors |
| Bareiss.MinorsPositive | scripts/bareiss_ldlt.py:106-108 | true exactly when every leading minor but the empty one is positive |
| Arith.LcmMultiple | scripts/bareiss_ldlt.py:70-71 | the least common multiple of positive numbers is a positive multiple of both |
| Ldlt.Decomposition | scripts/bareiss_ldlt.py:117-120 | after k weighted squares, what is left of a symmetric matrix are its bordered minors over the leading one |
| Ldlt.FullDecomposition | scripts/bareiss_ldlt.py:117-120 | after n of them nothing is left |
| Ldlt.AcceptedIsSemidefinite | scripts/psd_certificate_microprobe.py:82-91 | a certificate the checker accepts proves the matrix positive semidefinite |
| Ldlt.CertifiedIsDefinite | scripts/bareiss_ldlt.py:111-138 | with positive d and triangular L it proves it positive definite |
| Ldlt.DefiniteHasPositiveMinors | scripts/bareiss_ldlt.py:106-108 | Sylvester's criterion: a positive definite symmetric matrix has positive leading minors |
| Ldlt.CommonMultiple | scripts/bareiss_ldlt.py:127-129 | scale is the least common multiple of the products of neighbouring minors: a positive common multiple, and every other one is a multiple of it |
| Ldlt.LeastIsPrimitive | scripts/bareiss_ldlt.py:121-122 | over the least common multiple the quotients d[k] and scale have no common factor |
| Ldlt.ReadCertificate | scripts/bareiss_ldlt.py:126-138 | every d[k] is a positive exact quotient, L holds the columns of minors below a positive diagonal, and no integer above 1 divides scale and every d[k] |
| Ldlt.BareissLdltCert | scripts/bareiss_ldlt.py:111-138 | a certificate comes out exactly when all leading minors are positive, for symmetric matrices exactly when they are positive definite; then L holds minors, d[k] p_k p_{k+1} = scale, no integer above 1 divides scale and every d[k], and for symmetric matrices L diag(d) L^T is scale times the matrix; the elimination raises exactly when one of p_1 .. p_{n-2} is zero |
| Ldlt.ZeroMatrixRaises | scripts/bareiss_ldlt.py:97 | the zero matrix of order three is symmetric, not positive definite and has p_1 = 0, so that the elimination raises |
| Subsets.ChooseSize | scripts/covering_lower_bound_sweep.py:46-51 | there are C(n,t) subsets of size t |
| Subsets.CombsComplete | scripts/covering_verify.py:48-51 | the enumeration lists exactly the t-subsets |
| Subsets.CombsCount | scripts/covering_verify.py:48-51 | as many as the binomial coefficient says |
| Subsets.CombsInOrder | scripts/covering_verify.py:32 | the enumeration is in lexicographic order |
| Covering.VerifyCovering | scripts/covering_verify.py:24-36 | accepts exactly the coverings, and a rejection names the first bad block or the first uncovered t-subset in order |
| Covering.CountingBoundsCoverings | scripts/covering_lower_bound_sweep.py:46-51 | no accepted list has fewer blocks than `counting_bound` |
| Covering.CountingIsLeast | scripts/covering_lower_bound_sweep.py:46-51 | `counting_bound` is the least number of blocks with enough t-subsets between them |
| Covering.DerivedCovers | scripts/covering_table_oracle.py:40-45 | the blocks through a point, without it, cover the other points one size down |
| Covering.SchonheimBoundsCoverings | scripts/covering_table_oracle.py:40-45 | no accepted list has fewer blocks than `schonheim`, on any finite set of points |
| Covering.SchonheimIsLeast | scripts/covering_table_oracle.py:40-45 | for 1 <= t <= k and v >= t - 1 a number is at least `schonheim(v, k, t)` exactly if it ends a chain L_1, .., L_t with (k-t+j) L_j >= (v-t+j) L_{j-1} and L_0 = 1, that is, if the derived coverings leave it possible |
| Covering.SchonheimElsewhere | scripts/covering_table_oracle.py:43-45 | for t = 0 it is the least l with k l >= v, and zero for v < t |
| CoveringTable.SchonheimDominates | scripts/covering_lower_bound_sweep.py:54-58 | `schonheim` is never below `counting_bound` |
| CoveringTable.SchonheimHoldsWhen | scripts/covering_table_oracle.py:43-44 | for 1 <= k <= v and t <= k the recursion's value is a bound exactly if t >= 1 or v = k |
| CoveringTable.SchonheimFailsAtZero | scripts/covering_table_oracle.py:43-44 | at (2,1,0) it is none |
| CoveringTable.Validate | scripts/covering_table_oracle.py:48-62 | passes exactly if all anchors match and every entry is well formed and at least its Schonheim bound; otherwise the problems are exactly those there are |
| CoveringTable.Sweep | scripts/covering_lower_bound_sweep.py:61-83 | for every cell for which the bounds can be computed: the row holds the larger of the two, its status is the sign of the gap, the counters count the statuses, and wherever both are bounds no accepted list is shorter |
| CoveringTable.SettledRows | scripts/covering_lower_bound_sweep.py:68-76 | wherever both are bounds, no accepted list of blocks improves a cell marked OPTIMAL, and a cell marked ANOMALY has no covering of its recorded size |
| CoveringTable.ValidatedHasNoAnomaly | scripts/covering_lower_bound_sweep.py:68-70 | on a snapshot that passed validation no row is an anomaly |
| CoveringSearch.ShuffleKeeps | scripts/covering_reproduction_probe.py:45-50 | shuffling rearranges |
| CoveringSearch.ShuffleArranges | scripts/covering_reproduction_probe.py:47-49 | a shuffle is the arrangement made of one drawn choice for each position, the last position first, and takes one step of the generator a position |
| CoveringSearch.EveryArrangement | scripts/covering_reproduction_probe.py:47-49 | every arrangement is reached by some choices |
| CoveringSearch.OneChoice | scripts/covering_reproduction_probe.py:47-49 | different choices arrange different entries differently |
| CoveringSearch.StepIsInjective | scripts/covering_reproduction_probe.py:43 | different 31-bit states have different successors: the generator permutes them |
| CoveringSearch.Lcg.constructor | scripts/covering_reproduction_probe.py:41 | the seed is kept to 32 bits, also a negative one |
| CoveringSearch.Lcg.Nxt | scripts/covering_reproduction_probe.py:42-44 | one step of the generator, kept to 31 bits |
| CoveringSearch.Lcg.ShuffleArray | scripts/covering_reproduction_probe.py:47-49 | the in-place exchanges and the generator's state afterwards |
| CoveringSearch.Lcg.Shuffled | scripts/covering_reproduction_probe.py:45-50 | a shuffled copy is a permutation |
| CoveringSearch.PickBest | scripts/covering_reproduction_probe.py:57-61 | the first block that covers the most of what is uncovered |
| CoveringSearch.GreedyShrinks | scripts/covering_reproduction_probe.py:56-63 | against every covering d a step leaves at most the share 1 - 1/abs(d) |
| CoveringSearch.ProgressWhen | scripts/covering_reproduction_probe.py:56-63 | for k <= v every step covers something that was uncovered exactly if t <= k or t > v |
| CoveringSearch.StuckStep | scripts/covering_reproduction_probe.py:56-63 | with k < t a step leaves everything uncovered |
| CoveringSearch.Greedy | scripts/covering_reproduction_probe.py:53-64 | terminates with a covering of at most C(v,t) blocks, and with n blocks only if C(v,t) (1 - 1/abs(d))^(n-1) is at least 1 for every covering d; every block is the first of the candidates, shuffled once more, that cover the most of what the blocks before it leave, and it stops as soon as nothing is left |
| CoveringSearch.GreedyIsUnique | scripts/covering_reproduction_probe.py:53-64 | the candidates in their order and the state of the generator determine the covering found |
| CoveringSearch.Prune | scripts/covering_reproduction_probe.py:67-81 | terminates; what was covered stays covered, the blocks left are among those given, and none of them is redundant; dropping the first redundant block again and again keeps what one pass keeps |
| CoveringSearch.DropFirst | scripts/covering_reproduction_probe.py:70-80 | one pass keeps a block unless the blocks it kept before and all blocks after cover its t-sets; dropping the first redundant block does not change what it keeps |
| CoveringSearch.PrunedIsMinimal | scripts/covering_reproduction_probe.py:67-81 | a pruned covering is a covering and is none when any block is dropped |
| CoveringSearch.ProbeCell | scripts/covering_reproduction_probe.py:84-98 | the restarts run one after the other, each going on with the generator where the one before left it; the first shortest of them is accepted by the check, irredundant, within the greedy guarantee and not below the lower bounds |
| Congruence.IsPrime | leibniz/structural.py:170-178 | trial division up to the square root decides primality |
| Congruence.InverseInverts | leibniz/structural.py:202 | modulo a prime every nonzero coefficient has the inverse |
| Congruence.InverseUnique | leibniz/structural.py:202 | and only one |
| Polynomials.ExpandValue | leibniz/structural.py:91-153 | expansion preserves the value of every term it accepts at every assignment |
| Polynomials.ExpandTable | leibniz/structural.py:91-153 | the table has one entry a monomial, over the term's own variables |
| Degrees.ExpandsWhen | leibniz/structural.py:112-153 | a term expands exactly if it is built of integers and variables by signs, sums, products and constant powers up to eight and no product or power exceeds degree 64 as written; the table then has that degree |
| NormalForms.NormalizeKeepsZeros | leibniz/structural.py:181-204 | the normal form vanishes modulo m exactly where the polynomial does, through coefficient reduction, the merge by degree and the monic step |
| NormalForms.SeveralAgree | leibniz/structural.py:189-204 | with several variables two polynomials have one normal form exactly if their coefficients agree modulo m |
| NormalForms.CompositeAgree | leibniz/structural.py:184-203 | so have two in one variable, by degree, if m is not prime |
| NormalForms.PrimeAgree | leibniz/structural.py:184-203 | if m is prime, exactly if their coefficients agree up to one unit |
| NormalForms.NormalFormLists | leibniz/structural.py:184-204 | what a normal form lists: the coefficients that survive modulo m, and in one variable with a prime modulus their multiples by one unit with a leading one |
| Signatures.DifferenceMeans | leibniz/structural.py:341-357 | the two sides of an atom are equal exactly where its polynomial vanishes modulo m |
| Signatures.BoolSigMeans | leibniz/structural.py:376-425 | a signature has the meaning of every claim it is given to, at every assignment |
| Signatures.SameSignatureSameTruth | leibniz/structural.py:428-508 | claims read by their form with one signature are true at the same assignments, claims in one variable at the same values of it |
| Signatures.AtomsShare | leibniz/structural.py:327-362 | read with one and the same number of variables, two atoms have one signature exactly if relation and modulus agree and their polynomials have the same coefficients modulo m, in one variable and a prime modulus up to a unit |
| Signatures.ClaimsShare | leibniz/structural.py:44-50 | when two single congruences, each read with its own number of variables, share a signature: as above with the same arity, and otherwise only if nothing of either is left modulo m |
| Signatures.ArityCounts | leibniz/structural.py:361 | v % m == c and (v + m*w) % m == c have equal coefficients and different signatures |
| Renaming.SingleNameDrops | leibniz/structural.py:444-508 | every claim in one variable keeps its signature, or stays unread, when the variable is renamed: atoms, combinations, disjunctions and set tests alike |
| FormInvariance.Flatten | leibniz/structural.py:387-393 | the stack collects parts with the signatures of the operands, none of them of the same kind |
| FormInvariance.JunctionAssociates | leibniz/structural.py:386-402 | grouping of operands does not change a signature |
| FormInvariance.JunctionCommutes | leibniz/structural.py:398-402 | nor does their order |
| FormInvariance.ParityCommutes | leibniz/structural.py:417-423 | the sides of a biconditional may be exchanged |
| FormInvariance.NegatedComparison | leibniz/structural.py:401-413 | for one variable or several `not (a == b)` is signed as `a != b` and `not (a != b)` as `a == b`, between numbers and between claims |
| FormInvariance.NegationsDrop | leibniz/structural.py:376-413 | the same of whole claims, and a double negation in front of a claim read by its form is not seen |
| FormInvariance.NegationFlips | leibniz/structural.py:401-413 | what a negation does to a signature, whatever the claim looks like: it exchanges `==` and `!=`, `iff` and `xor`, and marks or unmarks a junction |
| FormInvariance.NegationIsInjective | leibniz/structural.py:401-413 | negated claims share their signature exactly if the claims do |
| FormInvariance.JunctionLists | leibniz/structural.py:393-400 | the signature of a junction without nested ones of its kind lists those of its operands, each as often as it occurs |
| Memberships.ResiduesExact | leibniz/structural.py:207-241 | one period lists exactly the residues over all integers |
| Memberships.PhrasingsShare | leibniz/structural.py:474-504 | `P % m == c_1 or P % m == c_2 or ..` and `P % m in {..}` have one signature whatever nonempty lists of constants they hold, `not in` has the opposite one, and they have one exactly if P is a polynomial in at most one variable and 2 <= m <= 65 |
| Memberships.DisjunctionWhen | leibniz/structural.py:298-324 | a disjunction is read by its residues exactly if every disjunct equates one and the same term modulo one modulus with a constant |
| Memberships.MembershipWhen | leibniz/structural.py:490-504 | no other membership has a signature |
| Memberships.MembershipTrue | leibniz/structural.py:298-324 | what a disjunction or membership claim says: that the residue of its term is, or is not, among those listed |
| Memberships.SingletonFold | leibniz/structural.py:282-286 | the fold onto `== r` or `!= r` agrees with the claim exactly when r is listed |
| Memberships.SharedResidues | leibniz/structural.py:287-291 | claims with one signature of several residues agree everywhere exactly when they list the same ones of the residues taken |
| Recognition.RecognizedWhen | leibniz/structural.py:376-425 | a combination has a signature exactly if its parts are congruences between terms within the cap, with constants in range |
| Recognition.SignedWhen | leibniz/structural.py:444-508 | claims about residues have a signature exactly if the residues can be enumerated, all others exactly if they are such combinations |
| PatternMining.EvaluateMod | leibniz/pattern_mining.py:62-67 | the running power computes the residue of the polynomial |
| PatternMining.ResidueSetOf | leibniz/pattern_mining.py:57-68 | collects the residues of one period |
| PatternMining.PeriodIsTaken | leibniz/pattern_mining.py:58-59 | these are exactly the residues taken at all integers |
| PolyText.ReadBack | leibniz/pattern_mining.py:71-92 | the text of any coefficient list, read with the precedences of the claim language, is one term |
| PolyText.CoefficientsReturn | leibniz/pattern_mining.py:71-92 | up to degree eight, writing, reading and expanding gives the coefficients back, zero where absent |
| PatternMining.PolyNodeValue | leibniz/pattern_mining.py:71-92 | the term that is read has the value of the polynomial at every integer |
| PatternMining.PropertyTrue | leibniz/pattern_mining.py:95-108 | the equality, inequality or membership claim made of the residues is true at every integer |
| PatternMining.PropertySays | leibniz/pattern_mining.py:95-108 | it lets exactly the residues through that the polynomial takes; it is an equality if one is taken, an inequality if all but one are, and otherwise lists them in order |
| PatternMining.FewerScoreHigher | leibniz/pattern_mining.py:111-120 | of two lists of residues for one modulus and degree the shorter scores higher |
| PatternMining.SeveralScoreHigherWhen | leibniz/pattern_mining.py:112-118 | several residues score higher than one exactly if 10 (count - 1) < 3 m |
| PatternMining.SmallerModulusScoresHigherWhen | leibniz/pattern_mining.py:112-120 | with as many residues the smaller of two moduli scores higher exactly if 100 count < 3 m m' |
| PatternMining.PlainerScoreHigher | leibniz/pattern_mining.py:114-120 | monic polynomials score higher, and so do lower degrees, strictly exactly if the higher one is above two |
| PatternMining.MineOne | leibniz/pattern_mining.py:172-189 | one candidate gives a pattern exactly if it misses a residue and its claim is recognized, new and not constant; the pattern lists exactly the residues taken, and so does its claim, which is true at every integer |
| MinedClaims.MinedWhen | leibniz/pattern_mining.py:172-185 | by the coefficients and residues alone: exactly if a residue is missed, some coefficient beside the constant one is not zero modulo m, the modulus is at most 65 or just one residue is taken or missed, and the signature is new |
| MinedClaims.FamilyOf | leibniz/pattern_mining.py:133-135 | the family of a mined pattern is its modulus and the largest degree whose coefficient is not zero modulo it |
| PatternMining.Collect | leibniz/pattern_mining.py:168-189 | one pattern a signature, each given by some candidate, the first of the best ones with that signature |
| PatternMining.RankAll | leibniz/pattern_mining.py:190 | exactly the patterns collected, by falling score and rising modulus |
| PatternMining.OrderMeans | leibniz/pattern_mining.py:190 | of any two ranked patterns the earlier scores higher, or as high with no larger modulus |
| PatternMining.Group | leibniz/pattern_mining.py:144-147 | one queue a degree and modulus, in the order of these, each in the order of the ranking |
| PatternMining.Round | leibniz/pattern_mining.py:150-156 | a round hands out the next of every queue and leaves the rest pending |
| PatternMining.Diversified | leibniz/pattern_mining.py:138-157 | terminates with a rearrangement: the firsts of all families by degree and modulus, then the seconds, and so on, each family in the order of the ranking |
| PatternMining.SpreadIsUnique | leibniz/pattern_mining.py:138-157 | there is one such order only |
| PatternMining.Mine | leibniz/pattern_mining.py:160-192 | every pattern is the first of the best that the candidates give under its signature, true at every integer, claims exactly the residues taken, is not in the corpus and not constant; no two share a signature, nothing recognizable is lost, and a limit cuts the spread list short |
| PatternMining.PatternMiner.constructor | leibniz/pattern_mining.py:218-222 | a new miner holds the first 256 of the mined list and has handed out nothing |
| PatternMining.PatternMiner.Seeds | leibniz/pattern_mining.py:227-233 | hands out the next k; over a whole run no signature comes twice and every pattern is true |
| LeanText.ReadBack | leibniz/dsl_to_lean.py:80-187 | the text of a term or proposition reads back as it, whatever follows |
| LeanText.ReadableIsProper | leibniz/dsl_to_lean.py:80-187 | for any set of keywords, exactly those statements can be read back in which no variable has a name that is taken and no junction has fewer than two parts |
| LeanText.TextDetermines | leibniz/dsl_to_lean.py:80-187 | two statements with one text are the same |
| LeanText.NamesClash | leibniz/dsl_to_lean.py:145-146 | a variable called min, Int or like a keyword breaks this |
| Renderer.TermMeans | leibniz/dsl_to_lean.py:66-150 | a rendered term has the value of the claim's term at every assignment that is not negative: folds of min and max, Euclidean division, powers under a modulus, factorial and gcd through toNat |
| Renderer.TermWhen | leibniz/dsl_to_lean.py:66-150 | a term is rendered exactly if it is in the fragment: constant powers up to eight, constant positive divisors, variable powers of constants only under a modulus, min and max of at least two terms, factorial and gcd of variables and small constants |
| Renderer.PropMeans | leibniz/dsl_to_lean.py:162-187 | a rendered proposition holds exactly where the claim is true, also for chains and biconditionals |
| Renderer.PropWhen | leibniz/dsl_to_lean.py:162-187 | a claim is rendered exactly if it is a proposition over such terms |
| RenderedOrder.TermKeepsOrder | leibniz/dsl_to_lean.py:66-150 | a rendered term names the constants and variables of the claim's term in its order, each as often |
| RenderedOrder.PropKeepsOrder | leibniz/dsl_to_lean.py:162-187 | so does a rendered proposition, with the inner terms of a chain on either side |
| Renderer.ReadableIsPlain | leibniz/dsl_to_lean.py:200-203 | for any set of keywords the text of a claim reads back as what was rendered exactly if none of its variables has a name that is taken |
| Renderer.RenderedMeans | leibniz/dsl_to_lean.py:200-203 | the text itself reads as one statement, true exactly where the claim is |
| Renderer.StatementsMean | leibniz/dsl_to_lean.py:242-263 | what each of the four statements says of the claims on its own |
| Renderer.PairIsFaithful | leibniz/dsl_to_lean.py:242-263 | the four statements force the claim's property wherever its domain holds in the box |
| Renderer.PairIsInhabited | leibniz/dsl_to_lean.py:242-263 | and the domain holds somewhere |
| Renderer.FaithfulIsProvable | leibniz/dsl_to_lean.py:242-263 | conversely all four hold of a claim that is covered, true and not empty |
| Degeneracy.DegenerateIsConstant | leibniz/structural.py:564-604 | a flagged claim whose membership sets hold literals only has one truth value for all assignments |
| Degeneracy.FlaggedWhen | leibniz/structural.py:520-580 | a claim is flagged exactly if all its atoms, under whatever junctions, negations and biconditionals, compare polynomials whose coefficients agree modulo m but for the constant ones |
| Degeneracy.VariableSetsFool | leibniz/structural.py:535-541 | with a variable in a set a flagged claim may depend on it |
| WordSearch.CheckPowerFree | leibniz/observatory_lint.py:185-197 | none exactly if the word has no power; otherwise the power of least period, and of those the first |
| WordSearch.LexFirstWhen | leibniz/observatory_lint.py:185-197 | the power of least period is the first by (start, period) exactly if of any two powers the earlier start and the shorter period are met by one |
| WordSearch.PowerIsShift | scripts/enumerate_walnut_probe_alpha.py:125-139 | e equal blocks of length p are (e-1)p agreements with the shift by p |
| WordSearch.NoPowersMeansEmptySearches | scripts/enumerate_walnut_probe_alpha.py:125-139 | the statement put to the prover says that the search finds nothing in any prefix |
| WordSearch.CheckAvoidsFactor | leibniz/observatory_lint.py:200-209 | none exactly if the block is empty or does not occur; otherwise its first occurrence |
| WordSearch.CheckAvoidsPattern | leibniz/observatory_lint.py:218-228 | none exactly if neither alternating block occurs; otherwise the first occurrence of 0101..., or if there is none of 1010... |
| ThueMorse.NoOverlap | leibniz/observatory_lint.py:40-42 | the bit-count word has no overlap |
| ThueMorse.NoCubes | leibniz/observatory_lint.py:40-42 | hence no cubes and no higher powers, in the prover's form of the statement |
| ThueMorse.WhichPrefixesArePowerFree | leibniz/observatory_lint.py:185-197 | for which prefix lengths and exponents the search comes back empty: always from cubes on |
| ThueMorse.WhichPrefixesAlternate | leibniz/observatory_lint.py:218-228 | for which lengths an alternating block is found: never from five letters on |
| ThueMorse.PeriodComesFirst | leibniz/observatory_lint.py:186-197 | in 01011 the search returns the square at 3, which is not the first by start |
| ThueMorse.MorphismGrowsBitCounts | leibniz/observatory_lint.py:40-42 | the fixed point of 0 to 01, 1 to 10 is the bit-count word |
| Morphisms.Morphic | leibniz/observatory_lint.py:55-67 | the loop stops at the first round that is long enough or no longer than the one before; if the start letter begins its own image the letters returned are the start of all later rounds, n of them or the whole word if it is finite |
| Morphisms.ErasingMaySwing | leibniz/observatory_lint.py:60-66 | a morphism that erases a letter, for which no round stops the loop |
| Morphisms.FixedPointPrefix | scripts/enumerate_walnut_probe_alpha.py:82-92 | for a uniform morphism, n letters of one infinite fixed point |
| Morphisms.FixedPointRelabels | scripts/enumerate_walnut_probe_alpha.py:49-61 | relabelling the morphism relabels its fixed point |
| Canon.Canonical | scripts/enumerate_walnut_probe_alpha.py:49-61 | the least of all relabellings that fix 0 |
| Canon.RelabellingsListed | scripts/enumerate_walnut_probe_alpha.py:53-56 | the permutations that are tried are all of them |
| Canon.CanonDecides | scripts/enumerate_walnut_probe_alpha.py:49-61 | canonical forms agree exactly if one morphism relabels the other |
| Canon.UniformMorphisms | scripts/enumerate_walnut_probe_alpha.py:64-79 | exactly one member of each class of uniform morphisms whose fixed point starts with 0: those that are their own canonical form, in lexicographic order |
| Canon.ChosenAreCanonical | scripts/enumerate_walnut_probe_alpha.py:64-79 | the first morphism of a class in the order of the enumeration is its canonical form |
| Processes.Prob | scripts/beyond_markov_cert.py:63-68 | the loop computes the product of the word's operators |
| Processes.SplitProbability | scripts/beyond_markov_cert.py:63-68 | P(uv) is the state after u against the probabilities of emitting v |
| Processes.ValidIsProcess | scripts/beyond_markov_cert.py:71-80 | the words of a valid model have the probabilities of a stochastic process |
| Processes.FoolingBound | scripts/beyond_markov_mprp.py:64-68 | a fooling set of t entries makes every non-negative factorization at least t wide |
| Processes.HmmNeedsStates | scripts/beyond_markov_mprp.py:8-14 | a valid model that gives the table's probabilities has at least t states |
| OrderSeparation.OrderSeparationCert | scripts/beyond_markov_cert.py:105-120 | the cleared matrix holds the probabilities over the least common denominator, its determinant is the gap times the squared denominator, and the certificate accepts exactly if the gap is nonzero and both pasts are possible |
| OrderSeparation.ClearedVerdict | scripts/beyond_markov_cert.py:114-119 | clearing denominators scales the determinant and keeps the verdict |
| OrderSeparation.SeparatesRefutesOrder | scripts/beyond_markov_cert.py:15-20 | an accepted certificate of order k refutes Markov order k |
| OrderSeparation.GapPower | scripts/beyond_markov_cert.py:105-120 | with two states D_k = D_0 det(T)^k |
| OrderSeparation.SeparatesForever | scripts/beyond_markov_cert.py:202-210 | one certificate and one determinant make the certificates of every order |
| Witnesses.EvenProcessSeparates | scripts/beyond_markov_cert.py:192-199 | the even process is valid and its certificate of every order accepts |
| Witnesses.TwoModeSeparates | scripts/beyond_markov_cert.py:180-189 | for which parameters the two-mode certificates of all orders accept |
| Chains.ShowingValid | scripts/beyond_markov_mprp.py:90-96 | a chain that shows its states is a valid model |
| Chains.PathsAreWords | scripts/beyond_markov_mprp.py:99-103 | its product of transitions is the probability of the word |
| Chains.WordProb | scripts/beyond_markov_mprp.py:99-103 | the loop computes the probability of the word in the model of the chain |
| Chains.NecklaceAttains | scripts/beyond_markov_mprp.py:90-96 | the necklace, a valid model with four states, has the probabilities of the table |
| Chains.NecklaceNeedsFourStates | scripts/beyond_markov_mprp.py:46-51 | no valid model with fewer than four states has the necklace's two-letter probabilities |
| Controller.FrontierController.constructor | leibniz/discovery.py:472-481 | a fresh controller has nothing on record |
| Controller.FrontierController.Record | leibniz/discovery.py:483-485 | the window keeps the last eight outcomes |
| Controller.FrontierController.Update | leibniz/discovery.py:490-525 | one update of target, window, jumps and pin, whichever way floating point decides a tie or the edge of the dead band |
| Controller.RunStaysValid | leibniz/discovery.py:490-525 | whatever happens the target stays within its bounds |
| Controller.WindowKeepsLast | leibniz/discovery.py:483-485 | after any run of outcomes the window holds the last eight of all |
| Controller.CorrectionFollowsRate | leibniz/discovery.py:523-525 | without a jump the target rises while more than 40 in a hundred are proved, falls while fewer than 30 are, up to the bounds, and rests in between; it moves by 0.30 times the difference to 35 in a hundred, to the nearest thousandth |
| Controller.JumpsWhen | leibniz/discovery.py:493-520 | fewer than four outcomes change nothing; with more it jumps exactly at a bound at which nothing is proved, or beyond which the rate points for the third time in a row |
| Controller.JumpLandsInside | leibniz/discovery.py:513-520 | a jump lands well inside, on the other side of the middle |
| Controller.JumpsVary | leibniz/discovery.py:495-516 | jumps to one side land on five different targets in turn |
| Controller.SaturationForcesJump | leibniz/discovery.py:501-513 | of three consecutive effective updates that find the target saturated one jumps |
| Controller.FailuresReturn | leibniz/discovery.py:490-525 | while nothing is proved the target is back at 570 thousandths or above after a number of updates that depends on the target |
| Controller.SixUpdatesSuffice | leibniz/discovery.py:490-525 | and six always suffice |

## Left out

- The linear program, its solver and `limit_denominator`: the proposals are parameters.
- The text of the Lean checkers embedded in the scripts: the same checks are modelled as methods.
- Spaces and decimal digits in rendered text and in written polynomials: texts are lists of tokens. The
  faithfulness pair is a record of quantified statements; its text and `canonical_statement` are left out.
- LeanText.ReadBack: unique readability is that of token lists; splitting printed characters into tokens is
  not part of this model.
- `_enumerate_coeffs` and `seed_text`: the candidates are a parameter of the miner, and what it hands out
  are the patterns themselves.
- PatternMining.RankAll: patterns of one score and modulus may come in any order, not by their text, and
  scores are exact instead of rounded.
- `rows.sort` in `sweep`: rows stay in the order of the cells.
- The status thresholds CLOSE and PLATEAU of `probe_cell`: they compare a rounded float. The time cap
  and the number of restarts are one parameter.
- `guard_source` and its size caps: claims start parsed.
- `_rudin_shapiro`, the Fibonacci and Tribonacci words as such: `Morphisms.Morphic` covers the loop.
- `_exact_rank`, `dep_ok` and `hankel_minor_cert`.
- Degeneracy.DegenerateIsConstant: one direction only, because a variable in a membership set may or may
  not matter; whether it does is no syntactic condition.
- Controller.FrontierController.Update: targets are whole thousandths. A tie in rounding may go either way,
  and so may the comparison at the edge of the dead band (2 proved of 5), because binary floating point
  decides these by its own error.
- Morphisms.Morphic: for a morphism that erases letters and whose start letter does not begin its own image
  nothing is said of the result, because the loop need not end (`Morphisms.ErasingMaySwing`). It may end all
  the same, as for 0 to 1 and 1 to nothing; whether it does depends on the lengths of all rounds.
- LeanText.ReadableIsProper: which words are keywords of the target language is a parameter; the list of
  them is not part of this model.
- CoveringSearch.Greedy: with k > v >= t there are no candidates and the lookup of the best one fails; that
  error is not part of this model.
- `subsumes`, the MAP-Elites archive, trust policy, providers and everything that is input or output.
