# advalgo_projects in Dafny

A model of the algorithmic core of the advalgo_projects teaching corpus: a collection of independent classical algorithms and data structures, each with an implementation and a programming-challenge variant. Each Dafny module follows one program of the corpus, in the form that program takes: where the Java (or C++) updates arrays, lists, maps or object fields step by step, the model is a class whose methods carry `modifies` clauses and loop invariants; where it computes values by recursion, the model is datatypes, functions and lemmas.

What is modelled, by project:

- **Primality** (`Primality`): trial division, the optimised trial division, binary exponentiation modulo m, the Miller-Rabin composite check and the deterministic Miller-Rabin test over the fixed witness bases.
- **Rabin-Karp** (`PolyHash`, `RabinKarp`, `RabinKarpPalindromes`): the rolling polynomial hash, the exact set of pattern occurrences, and the palindromic-substring count with its modular power.
- **Manacher** (`Manacher`, `Helix`): the palindrome radius array and the Helix challenge's match, preprocess, postprocess and radius loop.
- **Segment trees** (`SegTrees`, `Gcds`, `RangeGcd`): the tree for point update and range sum, range addition with point query, range assignment with point query, and range addition with range maximum, each against the array it stands for; the challenge's GCD tree over a difference array with its range-add rule.
- **Treaps** (`Treaps`, `BananaTreaps`): rotations, insert, delete, search, split, merge and in-order listing keeping both the search-tree order and the heap order of priorities; the challenge's size-augmented treap with split, merge, insert, remove and the meal simulation.
- **Bloom filter** (`Bloom`): add, addCollision, del and contains over an abstract hash.
- **HyperLogLog** (`Hll`): the register update of processHash and register-wise merge.
- **Aho-Corasick** (`AhoCorasick`, `AhoCounting`): the array automaton of the implementation (trie, failure function, output sets per state, next-state and search; the source's 32-bit int output mask is modelled only as the as-written half of a finding) and the challenge's map-based trie with failure links and occurrence counting.
- **Burrows-Wheeler transform** (`Lexicographic`, `Bwt`, `BwtTheory`, `BwtGaps`): rotations, the transform by sorted rotations, rank and first-column tables, the reverse transform, and the challenge's count of valid gap positions.
- **Knuth-Morris-Pratt** (`Kmp`, `KmpMining`): the longest-proper-prefix-suffix table, search, and the challenge's per-character text searchers.
- **Hopcroft** (`DfaMinimizer`, `ProductPairs`, `ProductMinimizer`): removing unreachable states, making the DFA total, partition refinement and the quotient automaton; the challenge's breadth-first product of two DFAs, classification, refinement and quotient transitions.
- **Gale-Shapley** (`StableMarriage`, `LabMatch`): the man-proposing stable matching and the challenge's student-to-lab assignment with capacities.
- **Mo's algorithm** (`MoWindow`, `MoMode`, `UniqueUsers`, `TimeQueries`): the query order, the moving window, the mode structure with frequency buckets, and the challenge's unique-users count over a time range.
- **Voronoi diagram** (`Voronoi`): the event heap of Fortune's sweep, 1-based with every event's index field naming its slot, and the beach-line tree's link and navigation helpers.
- **Fast multiplication** (`ToomCook`, `GoldenRatio`, `PhiDigits`, `PhiSweeps`, `PhiArith`): Toom-3 split, combine and multiply over an abstract base; the challenge's base-phi numbers over Z[phi] (trimming, in-place canonicalisation, the reduction sweeps after a sum and after a difference, add, subtract, multiply, integer multiple, shift and negate).
- **Minkowski sum** (`Minkowski`): point operations, reordering a polygon to start at its lowest point, and the edge-merging sum.
- **Shared vocabulary**: `Outcomes` (option and result types for null returns and thrown errors), `Arith` (powers, modular reduction, gcd), `Sums` (counts and sums over sequences), `Matching` (occurrences and borders), `Suffixes` (suffixes, for both Aho-Corasick models), `Tally` (rank and count tables), `Ranges` (array slices by absolute position, for the segment trees), `Partitions` (partitions and their refinement, for both minimizers) and `Sorting` (a stable sort by an integer-pair key, standing for the library sorts).

Java `int` and `long` are modelled as unbounded integers unless stated otherwise below (the Aho-Corasick output mask and the Hopcroft product-pair key are modelled at their Java width).

## Model

| member | source | states |
|---|---|---|
| Primality.Naive | projects/01-primalityTests/implementation/primalityTests.java:7-17 | true exactly when n is prime (at least 2 and without a divisor strictly between 1 and n) |
| Primality.NaiveOptimized | projects/01-primalityTests/implementation/primalityTests.java:20-33 | true exactly when n is prime: small cases, even numbers, and odd trial divisors up to the square root |
| Primality.EvenCandidateNotDivisor | projects/01-primalityTests/implementation/primalityTests.java:24 | an even candidate never divides an odd n, so skipping them loses no divisor |
| Primality.LargeDivisorHasSmallCofactor | projects/01-primalityTests/implementation/primalityTests.java:26 | with no divisor below i and i*i > n, no d in [i, n) divides n, so stopping at the square root loses no divisor |
| Primality.BinaryPower | projects/01-primalityTests/implementation/primalityTests.java:36-47 | the result is base^exp mod m: 1 when exp <= 0, and in [0, mod) otherwise |
| Primality.CheckComposite | projects/01-primalityTests/implementation/primalityTests.java:67-78 | true exactly when a is a Miller-Rabin witness for n with n - 1 == d * 2^s: a^d is neither 1 nor n-1 and no a^(d*2^r) with 0 < r < s is n-1 |
| Primality.SquareStep | projects/01-primalityTests/implementation/primalityTests.java:72-73 | squaring a^(d*2^(j-1)) mod n gives a^(d*2^j) mod n, so x walks the powers in order |
| Primality.OddPartSplits | projects/01-primalityTests/implementation/primalityTests.java:107-112 | every positive m is its odd part times a power of two |
| Primality.Decompose | projects/01-primalityTests/implementation/primalityTests.java:106-112 | n - 1 == d * 2^s with d odd (the odd part and the exponent of 2 of n - 1) |
| Primality.MillerRabinDeterministic | projects/01-primalityTests/implementation/primalityTests.java:104-124 | for n < 4, true exactly for 2 and 3; otherwise false exactly when one of the first min(iters, 12) primes, reached before any that equals n, is a witness |
| RabinKarp.HashFactor | projects/03-rabinKarp/implementation/rabinKarp.java:16-19 | h is non-negative and, for m >= 1, congruent to 256^(m-1) modulo the prime |
| RabinKarp.FirstHashes | projects/03-rabinKarp/implementation/rabinKarp.java:21-25 | fails exactly when the text is shorter than the pattern (charAt out of range); otherwise p and t are the hashes of the pattern and of the first window |
| RabinKarp.Rehash | projects/03-rabinKarp/implementation/rabinKarp.java:36-37 | the rolled hash as the program computes it, with Java's truncating remainder and the lift of a negative value |
| RabinKarp.NextWindow | projects/03-rabinKarp/implementation/rabinKarp.java:35-38 | rolling the hash of window i gives the hash of window i + 1, so t is always the hash of the current window |
| RabinKarp.Search | projects/03-rabinKarp/implementation/rabinKarp.java:7-42 | fails exactly when the pattern is longer than the text; otherwise returns strictly increasing indices, each a true match, and for a non-empty pattern every occurrence |
| RabinKarpPalindromes.ModPow | projects/03-rabinKarp/programmingChallenge/solutions/pcSol_java.java:50-61 | for exp > 0 the result is base^exp mod m; for exp <= 0 it is 1 |
| RabinKarpPalindromes.GrowHashes | projects/03-rabinKarp/programmingChallenge/solutions/pcSol_java.java:23-33 | the forward hash becomes the hash of s[i..j] and the backward hash that of its reverse |
| RabinKarpPalindromes.PalindromeHashesAgree | projects/03-rabinKarp/programmingChallenge/solutions/pcSol_java.java:35-38 | a palindrome's two hashes are equal, so the hash filter never discards a palindrome |
| RabinKarpPalindromes.CountFrom | projects/03-rabinKarp/programmingChallenge/solutions/pcSol_java.java:21-42 | adds to ans exactly the number of palindromes s[i..j] for j from i on |
| RabinKarpPalindromes.CountPalindromicSubstrings | projects/03-rabinKarp/programmingChallenge/solutions/pcSol_java.java:8-47 | returns the number of pairs i <= j whose substring s[i..j] reads the same backwards |
| Manacher.Preprocess | projects/04-ManachersAlgorithm/implementation/manachersAlgorithm.java:21-27 | returns the interleaving of s with '#': length 2\|s\|+1, marks at even positions and s[x] at 2x+1 |
| Manacher.Expand | projects/04-ManachersAlgorithm/implementation/manachersAlgorithm.java:57-59 | from a palindromic radius, expands to the radius where the next pair is out of range or differs, which is the largest palindromic radius at i |
| Manacher.MirrorRadius | projects/04-ManachersAlgorithm/implementation/manachersAlgorithm.java:52-54 | inside the rightmost palindrome, the mirror's radius capped at right - i is a palindromic radius at i |
| Manacher.SweepStep | projects/04-ManachersAlgorithm/implementation/manachersAlgorithm.java:47-71 | recording the radius at i and updating center/right and maxLen/centerIndex as the loop does keeps every earlier radius maximal and maxLen the largest, found at centerIndex |
| Manacher.Radii | projects/04-ManachersAlgorithm/implementation/manachersAlgorithm.java:29-72 | every radius p[k] of the sweep is the largest palindromic radius at k, and maxLen is the largest of them, found at centerIndex |
| Manacher.Conclude | projects/04-ManachersAlgorithm/implementation/manachersAlgorithm.java:74-76 | s[(centerIndex-maxLen)/2 ..+maxLen] is in range, is a palindrome, and no palindromic substring of s is longer |
| Manacher.LongestPalindrome | projects/04-ManachersAlgorithm/implementation/manachersAlgorithm.java:19-77 | returns a palindromic substring of s that is at least as long as every palindromic substring of s |
| Helix.MatchesPairs | projects/04-ManachersAlgorithm/programmingChallenge/solutions/HelixSolution.java:10-19 | matches holds for exactly the pairs A-T, T-A, C-G, G-C and #-#, and is symmetric |
| Helix.MatchesUnique | projects/04-ManachersAlgorithm/programmingChallenge/solutions/HelixSolution.java:10-19 | each character has at most one partner |
| Helix.Postprocess | projects/04-ManachersAlgorithm/programmingChallenge/solutions/HelixSolution.java:32-34 | drops every '#': the result holds no mark and is no longer |
| Helix.RoundTrip | projects/04-ManachersAlgorithm/programmingChallenge/solutions/HelixSolution.java:22-34 | postprocess(preprocess(x)) == x for a string x without marks |
| Helix.PostprocessInterleaved | projects/04-ManachersAlgorithm/programmingChallenge/solutions/HelixSolution.java:22-34 | postprocess(preprocess(x)) is x with its marks removed |
| Helix.HelixMirror | projects/04-ManachersAlgorithm/programmingChallenge/solutions/HelixSolution.java:46-60 | the reused radius, min(right - i, radius[mirror]) or capped at i - center - 1 when the centre's mirror does not match, is a complementary radius at i |
| Helix.Expand | projects/04-ManachersAlgorithm/programmingChallenge/solutions/HelixSolution.java:62-70 | expands to where the next pair is out of range or does not match, the largest complementary radius at i |
| Helix.Radii | projects/04-ManachersAlgorithm/programmingChallenge/solutions/HelixSolution.java:37-77 | every radius[k] is where the expansion at k stops, so the largest complementary radius at k |
| Helix.FirstMax | projects/04-ManachersAlgorithm/programmingChallenge/solutions/HelixSolution.java:79-86 | the first maximum of the radii: maxRadius == radius[maxCenter], no radius is larger, and none before maxCenter equals it |
| Helix.Conclude | projects/04-ManachersAlgorithm/programmingChallenge/solutions/HelixSolution.java:88-91 | the centre of the widest radius marks a longest helix x[a..a+maxRadius], whose interleaving is the candidate slice |
| Helix.NoLongerHelix | projects/04-ManachersAlgorithm/programmingChallenge/solutions/HelixSolution.java:79-86 | no helix substring of the input is longer than the widest radius |
| Helix.LongestHelixSubstring | projects/04-ManachersAlgorithm/programmingChallenge/solutions/HelixSolution.java:36-93 | returns the marks-free text of a longest helix substring of the input, and for an input without '#' that substring itself |
| Helix.Answer | projects/04-ManachersAlgorithm/programmingChallenge/solutions/HelixSolution.java:88-92 | postprocessing the interleaving of a longest helix substring gives a longest helix text of the input, and the helix itself when the input holds no '#' |
| SegTrees.BuildSum | projects/05-segmentTreeRangeUpdates/implementation/SegTreeRangeUpdates.java:49-65 | the tree over nums[l..r] is well shaped, every node holds the sum of its range, and its leaves are exactly nums[l..r] |
| SegTrees.SumValidIsSum | projects/05-segmentTreeRangeUpdates/implementation/SegTreeRangeUpdates.java:61-62 | in a tree that build leaves behind, every node's value is the sum of the array values it covers |
| SegTrees.QuerySum | projects/05-segmentTreeRangeUpdates/implementation/SegTreeRangeUpdates.java:78-89 | the result is the sum of the values that lie both in the node's range and in [l, r] |
| SegTrees.UpdateSum | projects/05-segmentTreeRangeUpdates/implementation/SegTreeRangeUpdates.java:102-118 | update keeps the shape and the ranges, and keeps every node the sum of its children |
| SegTrees.UpdateSumElements | projects/05-segmentTreeRangeUpdates/implementation/SegTreeRangeUpdates.java:102-118 | update sets the value at index (the nearest end when index is outside) to newVal and changes no other |
| SegTrees.SegTreeStandard.constructor | projects/05-segmentTreeRangeUpdates/implementation/SegTreeRangeUpdates.java:40-42 | the tree stands for nums |
| SegTrees.SegTreeStandard.Query | projects/05-segmentTreeRangeUpdates/implementation/SegTreeRangeUpdates.java:70-72 | the sum of the values at the positions of [l, r] that exist |
| SegTrees.SegTreeStandard.Update | projects/05-segmentTreeRangeUpdates/implementation/SegTreeRangeUpdates.java:94-96 | the array the tree stands for has newVal at index and is otherwise unchanged |
| SegTrees.QuerySumSlice | projects/05-segmentTreeRangeUpdates/implementation/SegTreeRangeUpdates.java:70-89 | a query inside the array is the sum of the slice l..r |
| SegTrees.UpdateThenQuery | projects/05-segmentTreeRangeUpdates/implementation/SegTreeRangeUpdates.java:70-118 | after update(i, v), query(i, i) is v, and a query that leaves out i is unchanged |
| SegTrees.BuildAdd | projects/05-segmentTreeRangeUpdates/implementation/SegTreeRangeUpdates.java:142-158 | leaves hold a[l..r] and inner nodes 0, so the values read along each root-to-leaf path are exactly a[l..r] |
| SegTrees.GetAddIsPathSum | projects/05-segmentTreeRangeUpdates/implementation/SegTreeRangeUpdates.java:172-182 | get(pos) is the sum along the path to pos, i.e. the current value at pos (nearest end outside the range) |
| SegTrees.UpdateAdd | projects/05-segmentTreeRangeUpdates/implementation/SegTreeRangeUpdates.java:196-212 | update keeps the shape and the ranges |
| SegTrees.UpdateAddIsAddRange | projects/05-segmentTreeRangeUpdates/implementation/SegTreeRangeUpdates.java:196-212 | update(l, r, add) adds add to the values at positions l..r and to no others |
| SegTrees.SegTreeAdditionAndGet.constructor | projects/05-segmentTreeRangeUpdates/implementation/SegTreeRangeUpdates.java:133-136 | the tree stands for a |
| SegTrees.SegTreeAdditionAndGet.Get | projects/05-segmentTreeRangeUpdates/implementation/SegTreeRangeUpdates.java:164-166 | the current value at pos (at the nearest end for pos outside the array) |
| SegTrees.SegTreeAdditionAndGet.Update | projects/05-segmentTreeRangeUpdates/implementation/SegTreeRangeUpdates.java:188-190 | the values at positions l..r gain add; others and an empty range change nothing |
| SegTrees.GetAfterAdd | projects/05-segmentTreeRangeUpdates/implementation/SegTreeRangeUpdates.java:172-212 | after one update, get(pos) gains add exactly when pos is in [l, r] |
| SegTrees.GetAfterAdds | projects/05-segmentTreeRangeUpdates/implementation/SegTreeRangeUpdates.java:172-212 | after a series of updates, get(pos) is the value before plus every addition whose range covers pos |
| SegTrees.GetAfterBuildAndAdds | projects/05-segmentTreeRangeUpdates/implementation/SegTreeRangeUpdates.java:133-212 | on a freshly built tree, get(pos) after a series of updates is a[pos] plus every addition covering pos |
| SegTrees.BuildAssign | projects/05-segmentTreeRangeUpdates/implementation/SegTreeRangeUpdates.java:236-250 | marked leaves hold arr[l..r] and inner nodes are unmarked, so the tree stands for arr[l..r] |
| SegTrees.Push | projects/05-segmentTreeRangeUpdates/implementation/SegTreeRangeUpdates.java:256-267 | a marked inner node hands its value to both children and loses its mark; the values the node stands for do not change |
| SegTrees.UpdateAssign | projects/05-segmentTreeRangeUpdates/implementation/SegTreeRangeUpdates.java:280-298 | the values at positions l..r become v and all others stay |
| SegTrees.SegTreeAssignAndGet.constructor | projects/05-segmentTreeRangeUpdates/implementation/SegTreeRangeUpdates.java:227-230 | the tree stands for arr |
| SegTrees.SegTreeAssignAndGet.Update | projects/05-segmentTreeRangeUpdates/implementation/SegTreeRangeUpdates.java:272-274 | the values at positions l..r become val and all others stay |
| SegTrees.SegTreeAssignAndGet.Get | projects/05-segmentTreeRangeUpdates/implementation/SegTreeRangeUpdates.java:303-323 | the current value at index (nearest end outside); the values stood for do not change |
| SegTrees.GetAssign | projects/05-segmentTreeRangeUpdates/implementation/SegTreeRangeUpdates.java:311-323 | get reads the value at the position nearest to index, and the pushes on the way change no value |
| SegTrees.AssignThenGet | projects/05-segmentTreeRangeUpdates/implementation/SegTreeRangeUpdates.java:272-323 | after assigning v to l..r, get(i) is v inside the range and what it was before outside it |
| SegTrees.BuildMax | projects/05-segmentTreeRangeUpdates/implementation/SegTreeRangeUpdates.java:347-363 | the tree stands for arr[l..r], nothing is pending, and every node holds the maximum of its range |
| SegTrees.MaxValidIsMax | projects/05-segmentTreeRangeUpdates/implementation/SegTreeRangeUpdates.java:361-362 | in a tree that build leaves behind, every node holds the maximum of the values it stands for |
| SegTrees.PushDown | projects/05-segmentTreeRangeUpdates/implementation/SegTreeRangeUpdates.java:369-382 | the pending addition moves to the children; the values stood for and the maxima are unchanged |
| SegTrees.UpdateMax | projects/05-segmentTreeRangeUpdates/implementation/SegTreeRangeUpdates.java:395-416 | add is added to the values at positions l..r, and every node still holds the maximum of its range |
| SegTrees.GetMax | projects/05-segmentTreeRangeUpdates/implementation/SegTreeRangeUpdates.java:429-441 | get reads the current value at the position nearest to index; pushdowns change no value and keep the maxima |
| SegTrees.RangeMax | projects/05-segmentTreeRangeUpdates/implementation/SegTreeRangeUpdates.java:454-468 | the query keeps the shape, the ranges and the root value |
| SegTrees.RangeMaxIsMax | projects/05-segmentTreeRangeUpdates/implementation/SegTreeRangeUpdates.java:454-468 | queryMax(l, r) is the largest value at positions in [l, r], or Integer.MIN_VALUE when there is none |
| SegTrees.SegTreeAdditionAndMax.constructor | projects/05-segmentTreeRangeUpdates/implementation/SegTreeRangeUpdates.java:338-341 | the tree stands for arr |
| SegTrees.SegTreeAdditionAndMax.Update | projects/05-segmentTreeRangeUpdates/implementation/SegTreeRangeUpdates.java:387-389 | add is added to the values at positions l..r |
| SegTrees.SegTreeAdditionAndMax.Get | projects/05-segmentTreeRangeUpdates/implementation/SegTreeRangeUpdates.java:421-423 | the current value at index (nearest end outside); the contents do not change |
| SegTrees.SegTreeAdditionAndMax.QueryMax | projects/05-segmentTreeRangeUpdates/implementation/SegTreeRangeUpdates.java:446-448 | the largest value at positions in [l, r], or Integer.MIN_VALUE for an empty range |
| Gcds.GcdHelperIsGcd | projects/05-segmentTreeRangeUpdates/programmingChallenge/solutions/Solution.java:128-145 | gcdHelper(a, 0) is a, gcdHelper(0, b) is b, and otherwise the absolute value of gcdHelper(a, b) is gcd(\|a\|, \|b\|) |
| Gcds.GcdHelperDivisors | projects/05-segmentTreeRangeUpdates/programmingChallenge/solutions/Solution.java:128-145 | the divisors of gcdHelper(a, b) are exactly the common divisors of a and b |
| Gcds.GcdHelperPositive | projects/05-segmentTreeRangeUpdates/programmingChallenge/solutions/Solution.java:128-145 | for nonzero operands gcdHelper is positive and divides both |
| Gcds.GcdDivisors | projects/05-segmentTreeRangeUpdates/programmingChallenge/solutions/Solution.java:128-145 | the Euclidean gcd has as divisors exactly the common divisors of its operands, so it is their greatest common divisor |
| Gcds.Diffs | projects/05-segmentTreeRangeUpdates/programmingChallenge/solutions/Solution.java:296-299 | diffA has N - 1 entries and diffA[i - 1] == a[i] - a[i - 1] |
| Gcds.DiffsAfterAdd | projects/05-segmentTreeRangeUpdates/programmingChallenge/solutions/Solution.java:350-364 | adding x to a[l..r] changes the differences only at l - 1 (by x, when l > 0) and at r (by -x, when r < N - 1) |
| Gcds.DiffGcd | projects/05-segmentTreeRangeUpdates/programmingChallenge/solutions/Solution.java:320-323 | the gcd of a[l..r] is the gcd of a[l] and of the differences diffA[l..r - 1] |
| RangeGcd.BuildGcd | projects/05-segmentTreeRangeUpdates/programmingChallenge/solutions/Solution.java:172-188 | the tree over a[l..r] is well shaped, stands for a[l..r], and every node holds gcdHelper of its children |
| RangeGcd.GcdValidIsGcd | projects/05-segmentTreeRangeUpdates/programmingChallenge/solutions/Solution.java:187 | every node's value is, up to its sign, the gcd of the values in its range |
| RangeGcd.QueryGcdIsGcd | projects/05-segmentTreeRangeUpdates/programmingChallenge/solutions/Solution.java:201-214 | query(l, r) is, up to its sign, the gcd of the values at positions l..r, and 0 for l > r |
| RangeGcd.UpdateGcd | projects/05-segmentTreeRangeUpdates/programmingChallenge/solutions/Solution.java:228-248 | update keeps the shape, the ranges and the gcd invariant |
| RangeGcd.UpdateGcdElements | projects/05-segmentTreeRangeUpdates/programmingChallenge/solutions/Solution.java:228-248 | for pos in 0..length - 1, add is added to the value at pos and to no other |
| RangeGcd.SegTreeGCD.constructor | projects/05-segmentTreeRangeUpdates/programmingChallenge/solutions/Solution.java:159-166 | the tree stands for a; an empty array gives no root and length 0 |
| RangeGcd.SegTreeGCD.Query | projects/05-segmentTreeRangeUpdates/programmingChallenge/solutions/Solution.java:193-195 | \|query(l, r)\| is the gcd of the values at positions l..r |
| RangeGcd.SegTreeGCD.Update | projects/05-segmentTreeRangeUpdates/programmingChallenge/solutions/Solution.java:220-222 | the value at pos gains add; a position outside the array changes nothing |
| RangeGcd.DifferenceArray | projects/05-segmentTreeRangeUpdates/programmingChallenge/solutions/Solution.java:296-299 | the loop fills a fresh array with the adjacent differences of a |
| RangeGcd.GcdFromDifferences | projects/05-segmentTreeRangeUpdates/programmingChallenge/solutions/Solution.java:323 | gcdHelper of a[l] and of a gcd of diffA[l..r - 1] is, up to its sign, the gcd of a[l..r] |
| RangeGcd.GcdStep | projects/05-segmentTreeRangeUpdates/programmingChallenge/solutions/Solution.java:315-323 | a GCD query answers, up to its sign, the gcd of the current values at l..r |
| RangeGcd.BoundaryUpdates | projects/05-segmentTreeRangeUpdates/programmingChallenge/solutions/Solution.java:357-364 | after the two boundary updates the gcd tree holds the differences of the array with x added to l..r |
| RangeGcd.AddStep | projects/05-segmentTreeRangeUpdates/programmingChallenge/solutions/Solution.java:340-364 | an ADD query adds x to l..r in the addition tree and keeps the gcd tree equal to the differences of the new array |
| RangeGcd.RunQuery | projects/05-segmentTreeRangeUpdates/programmingChallenge/solutions/Solution.java:311-364 | one query of the loop: the answers so far followed by what the remaining queries ask for on the new array are still what all queries ask for on the original array; both trees keep standing for the new array |
| RangeGcd.RunTestCase | projects/05-segmentTreeRangeUpdates/programmingChallenge/solutions/Solution.java:282-366 | the answers of the GCD queries are, up to their sign, the gcds of the ranges of the array as the ADD queries before them leave it |
| Treaps.InorderKeys | projects/07-Treaps/Implementation/Treap.java:179-195 | the symmetric order lists every key of the tree once |
| Treaps.OrderedIncreasing | projects/07-Treaps/Implementation/Treap.java:179-195 | the symmetric order of a search tree is strictly increasing |
| Treaps.HeapRoot | projects/07-Treaps/Implementation/Treap.java:61-67 | in a heap no priority is below the root's |
| Treaps.RotateRight | projects/07-Treaps/Implementation/Treap.java:33-38 | rotateRight returns a node whose right child is a node |
| Treaps.RotateLeft | projects/07-Treaps/Implementation/Treap.java:46-51 | rotateLeft returns a node whose left child is a node |
| Treaps.RotateRightKeeps | projects/07-Treaps/Implementation/Treap.java:33-38 | rotateRight keeps the symmetric order, hence the keys, and keeps search-tree order |
| Treaps.RotateLeftKeeps | projects/07-Treaps/Implementation/Treap.java:46-51 | rotateLeft keeps the symmetric order, hence the keys, and keeps search-tree order |
| Treaps.InsertNode | projects/07-Treaps/Implementation/Treap.java:55-71 | insert always returns a node |
| Treaps.InsertKeys | projects/07-Treaps/Implementation/Treap.java:55-71 | insert adds exactly the key |
| Treaps.InsertOrdered | projects/07-Treaps/Implementation/Treap.java:55-71 | insert keeps search-tree order |
| Treaps.InsertBelowRoot | projects/07-Treaps/Implementation/Treap.java:59-68 | after insert the root's priority is the old root's or the new node's |
| Treaps.InsertHeap | projects/07-Treaps/Implementation/Treap.java:55-71 | insert keeps the heap order (no child's priority below its parent's) |
| Treaps.InsertPresent | projects/07-Treaps/Implementation/Treap.java:59-70 | inserting a key already present changes nothing |
| Treaps.DeleteKeys | projects/07-Treaps/Implementation/Treap.java:83-108 | on a search tree, delete removes exactly the key and keeps search-tree order |
| Treaps.DeleteBound | projects/07-Treaps/Implementation/Treap.java:83-108 | delete keeps every lower bound on the priorities |
| Treaps.DeleteHeap | projects/07-Treaps/Implementation/Treap.java:83-108 | delete keeps the heap order |
| Treaps.SplitParts | projects/07-Treaps/Implementation/Treap.java:128-140 | the two parts list the tree's keys in symmetric order, the left part first, and keep the priority bounds |
| Treaps.SplitHeap | projects/07-Treaps/Implementation/Treap.java:128-140 | both parts of a heap are heaps |
| Treaps.SplitKeys | projects/07-Treaps/Implementation/Treap.java:128-140 | on a search tree, the left part holds exactly the keys below key and the right part the others, both ordered |
| Treaps.MergeInorder | projects/07-Treaps/Implementation/Treap.java:153-169 | the merge lists L's keys and then R's |
| Treaps.MergeParts | projects/07-Treaps/Implementation/Treap.java:153-169 | the merge holds the keys of both and keeps the priority bounds |
| Treaps.MergeHeap | projects/07-Treaps/Implementation/Treap.java:153-169 | merging two heaps gives a heap |
| Treaps.MergeOrdered | projects/07-Treaps/Implementation/Treap.java:153-169 | merging two search trees whose keys are separated gives a search tree |
| Treaps.Treap.constructor | projects/07-Treaps/Implementation/Treap.java:23 | an empty treap |
| Treaps.Treap.Insert | projects/07-Treaps/Implementation/Treap.java:77-79 | the treap stays a treap and its keys gain key; a present key changes nothing |
| Treaps.Treap.Delete | projects/07-Treaps/Implementation/Treap.java:110-112 | the treap stays a treap and its keys lose key |
| Treaps.Treap.Search | projects/07-Treaps/Implementation/Treap.java:116-124 | true exactly when key is in the treap |
| Treaps.Treap.Split | projects/07-Treaps/Implementation/Treap.java:142-149 | two treaps, one with the keys below key and one with the others |
| Treaps.Treap.Inorder | projects/07-Treaps/Implementation/Treap.java:179-195 | the loop with the stack returns the keys in symmetric order, which is strictly increasing |
| Treaps.MergeTreaps | projects/07-Treaps/Implementation/Treap.java:171-175 | the merged treap lists left's keys then right's, and is a treap when left's keys are all below right's |
| BananaTreaps.Update | projects/07-Treaps/programmingChallenge/solutions/pcTreaps_java.java:27-31 | update leaves a missing node missing and a node a node |
| BananaTreaps.UpdateSizes | projects/07-Treaps/programmingChallenge/solutions/pcTreaps_java.java:27-31 | with valid sizes below, update makes x's size its number of nodes and changes nothing else |
| BananaTreaps.SizeIsCount | projects/07-Treaps/programmingChallenge/solutions/pcTreaps_java.java:22-24 | with valid sizes, size(x) is the number of nodes |
| BananaTreaps.SplitContents | projects/07-Treaps/programmingChallenge/solutions/pcTreaps_java.java:34-47 | the two parts share the bananas of the tree between them |
| BananaTreaps.SplitSides | projects/07-Treaps/programmingChallenge/solutions/pcTreaps_java.java:34-47 | on an ordered tree the left part holds the positions up to key and the right part those above key, both ordered |
| BananaTreaps.SplitShape | projects/07-Treaps/programmingChallenge/solutions/pcTreaps_java.java:34-47 | both parts of a heap are heaps, and split keeps the sizes valid |
| BananaTreaps.MergeContents | projects/07-Treaps/programmingChallenge/solutions/pcTreaps_java.java:50-61 | the merge holds the bananas of both trees |
| BananaTreaps.MergePositions | projects/07-Treaps/programmingChallenge/solutions/pcTreaps_java.java:50-61 | the merge holds the positions of both trees |
| BananaTreaps.MergeSizes | projects/07-Treaps/programmingChallenge/solutions/pcTreaps_java.java:50-61 | merge keeps the sizes valid |
| BananaTreaps.MergeHeap | projects/07-Treaps/programmingChallenge/solutions/pcTreaps_java.java:50-61 | merging two heaps (largest priority on top) gives a heap |
| BananaTreaps.MergeOrdered | projects/07-Treaps/programmingChallenge/solutions/pcTreaps_java.java:50-61 | merging an ordered tree with positions up to m and one with positions from m on gives an ordered tree |
| BananaTreaps.InsertContents | projects/07-Treaps/programmingChallenge/solutions/pcTreaps_java.java:64-76 | insert adds exactly the one banana |
| BananaTreaps.InsertSizes | projects/07-Treaps/programmingChallenge/solutions/pcTreaps_java.java:64-76 | insert keeps the sizes valid |
| BananaTreaps.InsertOrdered | projects/07-Treaps/programmingChallenge/solutions/pcTreaps_java.java:64-76 | insert keeps the positions in search-tree order |
| BananaTreaps.InsertHeap | projects/07-Treaps/programmingChallenge/solutions/pcTreaps_java.java:64-76 | insert keeps the heap order |
| BananaTreaps.InsertCount | projects/07-Treaps/programmingChallenge/solutions/pcTreaps_java.java:64-76 | the size at the root grows by one |
| BananaTreaps.RemoveSubset | projects/07-Treaps/programmingChallenge/solutions/pcTreaps_java.java:79-86 | remove takes out only bananas of the tree |
| BananaTreaps.RemoveSizes | projects/07-Treaps/programmingChallenge/solutions/pcTreaps_java.java:79-86 | remove keeps the sizes valid |
| BananaTreaps.RemoveOrdered | projects/07-Treaps/programmingChallenge/solutions/pcTreaps_java.java:79-86 | remove keeps the order |
| BananaTreaps.RemovePositions | projects/07-Treaps/programmingChallenge/solutions/pcTreaps_java.java:79-86 | on an ordered tree remove takes out exactly one occurrence of key when there is one, and nothing otherwise |
| BananaTreaps.RemoveHeap | projects/07-Treaps/programmingChallenge/solutions/pcTreaps_java.java:79-86 | remove keeps the heap order |
| BananaTreaps.RemoveMissing | projects/07-Treaps/programmingChallenge/solutions/pcTreaps_java.java:79-86 | removing a position that is not in the tree leaves the tree unchanged |
| BananaTreaps.RemoveCount | projects/07-Treaps/programmingChallenge/solutions/pcTreaps_java.java:79-86 | removing a present position takes exactly one node out |
| BananaTreaps.OperationsKeepValid | projects/07-Treaps/programmingChallenge/solutions/pcTreaps_java.java:134-142 | ADD and REMOVE keep an ordered heap with valid sizes |
| BananaTreaps.OrderedSorted | projects/07-Treaps/programmingChallenge/solutions/pcTreaps_java.java:95-100 | the in-order walk of an ordered tree meets the bananas in position order |
| BananaTreaps.MealsBounded | projects/07-Treaps/programmingChallenge/solutions/pcTreaps_java.java:103-123 | at most one meal per banana, each of a banana on the walk, eaten no earlier than it is ready and no later than T |
| BananaTreaps.MealsInTimeOrder | projects/07-Treaps/programmingChallenge/solutions/pcTreaps_java.java:103-123 | walking over bananas sorted by position, the meal times never decrease |
| BananaTreaps.Simulate | projects/07-Treaps/programmingChallenge/solutions/pcTreaps_java.java:89-126 | the loop with the stack counts the meals of the walk over the in-order bananas, from position 0 at time 0 |
| BananaTreaps.SimulateBounds | projects/07-Treaps/programmingChallenge/solutions/pcTreaps_java.java:89-126 | on a valid treap simulate counts at most one meal per node, each no later than T |
| BananaTreaps.SimulateInTimeOrder | projects/07-Treaps/programmingChallenge/solutions/pcTreaps_java.java:89-126 | when no position is negative the meals come in time order |
| Bloom.BloomFilter.Probes | projects/08-bloomFilter/programmingChallenge/solutions/pcSol_java.java:103-105 | one position per seed, each hash(s, seed) mod m, so within the bit array |
| Bloom.BloomFilter.constructor | projects/08-bloomFilter/programmingChallenge/solutions/pcSol_java.java:38-47 | a filter of m bits and k seeds with every bit and every collision flag clear |
| Bloom.SetBitsAt | projects/08-bloomFilter/programmingChallenge/solutions/pcSol_java.java:102-107 | after adding, a bit is set exactly when it was set or is probed |
| Bloom.BloomFilter.Add | projects/08-bloomFilter/programmingChallenge/solutions/pcSol_java.java:102-107 | every probed bit is set and every other bit keeps its value |
| Bloom.MarkBitsAt | projects/08-bloomFilter/programmingChallenge/solutions/pcSol_java.java:131-140 | after addCollision, a bit is set exactly when it was set or is probed; a collision flag is raised exactly when it was raised or a probe finds the bit already set (including an earlier probe of the same call) |
| Bloom.BloomFilter.AddCollision | projects/08-bloomFilter/programmingChallenge/solutions/pcSol_java.java:131-141 | the new bits and flags are those of probing the positions in order: a set bit gets its flag, a clear one is set |
| Bloom.ClearBitsAt | projects/08-bloomFilter/programmingChallenge/solutions/pcSol_java.java:144-151 | after del, a bit is set exactly when it was set and is either not probed or flagged |
| Bloom.BloomFilter.Del | projects/08-bloomFilter/programmingChallenge/solutions/pcSol_java.java:144-151 | every probed bit without a collision flag is cleared, all other bits are unchanged |
| Bloom.BloomFilter.Contains | projects/08-bloomFilter/programmingChallenge/solutions/pcSol_java.java:165-173 | true exactly when every probed bit is set |
| Bloom.AddThenContains | projects/08-bloomFilter/programmingChallenge/solutions/pcSol_java.java:102-173 | after add(s), contains(s) holds |
| Bloom.AddCollisionThenContains | projects/08-bloomFilter/programmingChallenge/solutions/pcSol_java.java:131-173 | after addCollision(s), contains(s) holds |
| Bloom.DelKeepsCollided | projects/08-bloomFilter/programmingChallenge/solutions/pcSol_java.java:144-151 | del never clears a set bit with a collision flag |
| Hll.HyperLogLog.constructor | projects/09-hyperLogLog/implementation/hyperLogLog.cpp:13-27 | a sketch of precision p with m = 2^p registers, all zero |
| Hll.ShiftSplit | projects/09-hyperLogLog/implementation/hyperLogLog.cpp:124-128 | the index h >> (64 - p) and the rest h & (2^(64-p) - 1) together give back the hash |
| Hll.BucketBound | projects/09-hyperLogLog/implementation/hyperLogLog.cpp:124 | the register index is below m = 2^p |
| Hll.RhoRange | projects/09-hyperLogLog/implementation/hyperLogLog.cpp:131 | rho lies in [1, 64 - p + 1], the largest value only for an all-zero rest, so it fits the uint8_t register |
| Hll.HyperLogLog.ProcessHash | projects/09-hyperLogLog/implementation/hyperLogLog.cpp:115-137 | the register picked by the top p bits keeps the larger of its value and rho, all others are unchanged, and no register decreases |
| Hll.SketchDominates | projects/09-hyperLogLog/implementation/hyperLogLog.cpp:136 | processing hashes never lowers a register |
| Hll.MaxRegsCommutes | projects/09-hyperLogLog/implementation/hyperLogLog.cpp:65-66 | the register-wise maximum is commutative |
| Hll.MaxRegsIdempotent | projects/09-hyperLogLog/implementation/hyperLogLog.cpp:65-66 | merging a sketch with itself changes nothing |
| Hll.MaxRegsAssociates | projects/09-hyperLogLog/implementation/hyperLogLog.cpp:65-66 | the register-wise maximum is associative |
| Hll.HyperLogLog.Merge | projects/09-hyperLogLog/implementation/hyperLogLog.cpp:58-68 | fails exactly on different precisions; otherwise a fresh sketch of the same precision holding the register-wise maximum |
| Hll.MergeIsUnion | projects/09-hyperLogLog/implementation/hyperLogLog.cpp:58-68 | merging the sketches of two hash streams gives the sketch of the concatenated stream |
| AhoCorasick.AddKeyword | projects/10-AhoCorasickAlgorithm/implementation/implementation.java:63-78 | walking keyword w from the root allocates at most \|w\| new states, keeps the trie well formed, and ends at the state that spells w |
| AhoCorasick.InsertKeywords | projects/10-AhoCorasickAlgorithm/implementation/implementation.java:60-83 | the trie spells every keyword, has at most 1 + the total keyword length states, and each state's output is exactly the keywords it spells |
| AhoCorasick.CompleteRoot | projects/10-AhoCorasickAlgorithm/implementation/implementation.java:87-89 | missing root edges become edges to the root and nothing else changes |
| AhoCorasick.FollowFailures | projects/10-AhoCorasickAlgorithm/implementation/implementation.java:121-131 | following failure links until an edge for c exists reaches the longest suffix state of w + [c] |
| AhoCorasick.DepthOne | projects/10-AhoCorasickAlgorithm/implementation/implementation.java:98-108 | a state one character deep fails to the root and its outputs are its own keywords |
| AhoCorasick.MatchesMerge | projects/10-AhoCorasickAlgorithm/implementation/implementation.java:136-138 | merging the failure state's outputs gives exactly the keywords that end the state's string |
| AhoCorasick.ProcessRoot | projects/10-AhoCorasickAlgorithm/implementation/implementation.java:98-108 | after the root's loop its children fail to the root and sit in the queue |
| AhoCorasick.ProcessState | projects/10-AhoCorasickAlgorithm/implementation/implementation.java:115-143 | processing a state gives each child its failure link and merged output, and queues the children |
| AhoCorasick.AllLinked | projects/10-AhoCorasickAlgorithm/implementation/implementation.java:111-144 | with the queue empty, every state but the root has a failure link |
| AhoCorasick.BuildFailures | projects/10-AhoCorasickAlgorithm/implementation/implementation.java:93-144 | the breadth-first search ends with a complete automaton: failure links to longest proper suffix states, outputs merged along them |
| AhoCorasick.FailureShallower | projects/10-AhoCorasickAlgorithm/implementation/implementation.java:93-144 | every failure link leads to a strictly shorter suffix state, and one character deep to the root |
| AhoCorasick.OutputIff | projects/10-AhoCorasickAlgorithm/implementation/implementation.java:82-138 | a non-empty keyword is an output of a state exactly when it ends that state's string |
| AhoCorasick.NextLongest | projects/10-AhoCorasickAlgorithm/implementation/implementation.java:159-171 | reading c from the longest suffix state of the text gives the longest suffix state of text + [c] |
| AhoCorasick.Reported | projects/10-AhoCorasickAlgorithm/implementation/implementation.java:189-205 | at the longest suffix state of the text read, the outputs are exactly the non-empty keywords that end the text |
| AhoCorasick.Matcher.constructor | projects/10-AhoCorasickAlgorithm/implementation/implementation.java:27-38 | the tables start all zero, as Java allocates them |
| AhoCorasick.Matcher.BuildAutomaton | projects/10-AhoCorasickAlgorithm/implementation/implementation.java:48-147 | returns the number of states, at most 1 + the total keyword length, with the automaton complete and the root total |
| AhoCorasick.Matcher.FindNextState | projects/10-AhoCorasickAlgorithm/implementation/implementation.java:159-171 | the state of the longest suffix of the current state's string + nextInput that the trie spells |
| AhoCorasick.Matcher.SearchWords | projects/10-AhoCorasickAlgorithm/implementation/implementation.java:180-207 | the corrected half of the output-mask finding: every reported (j, i) has keyword j ending at position i of the text, and every non-empty keyword ending at i is reported |
| AhoCorasick.Matcher.Scan | projects/10-AhoCorasickAlgorithm/implementation/implementation.java:189-206 | the corrected half of the output-mask finding: the loop over the text reports exactly the keyword occurrences ending at each position |
| AhoCorasick.Matcher.Report | projects/10-AhoCorasickAlgorithm/implementation/implementation.java:198-205 | the corrected half of the output-mask finding: the inner loop adds one line for each keyword in the state's output set and no other |
| AhoCorasick.ScanStep | projects/10-AhoCorasickAlgorithm/implementation/implementation.java:189-199 | one character of the search: the new state is the longest suffix state and its outputs are the keywords ending there |
| AhoCorasick.MaskMerge | projects/10-AhoCorasickAlgorithm/implementation/implementation.java:138 | OR-ing two masks merges their keyword sets, bit position modulo 32 |
| AhoCorasick.MaskReportsExactly | projects/10-AhoCorasickAlgorithm/implementation/implementation.java:199 | the test (mask & (1 << j)) > 0 succeeds exactly when j mod 32 is not 31 and some output keyword has j's bit |
| AhoCorasick.MaskEmpty | projects/10-AhoCorasickAlgorithm/implementation/implementation.java:194 | the mask is 0 exactly when the state has no output |
| AhoCorasick.MaskAgreesBelow31 | projects/10-AhoCorasickAlgorithm/implementation/implementation.java:199 | below index 31, the int mask reports exactly the keywords in the output |
| AhoCorasick.KeywordThirtyOneLost | projects/10-AhoCorasickAlgorithm/implementation/implementation.java:199 | keyword 31 is never reported, even at a state where it ends |
| AhoCorasick.KeywordThirtyTwoAliased | projects/10-AhoCorasickAlgorithm/implementation/implementation.java:82 | keyword 32 is reported where only keyword 0 ends |
| AhoCorasick.ReportAsWritten | projects/10-AhoCorasickAlgorithm/implementation/implementation.java:198-205 | the inner loop as written reports exactly the keywords whose bit test succeeds on the int mask |
| AhoCounting.LowerCase | projects/10-AhoCorasickAlgorithm/programmingChallenge/solutions/solution.java:36 | toLowerCase keeps the length |
| AhoCounting.LowerCaseFolds | projects/10-AhoCorasickAlgorithm/programmingChallenge/solutions/solution.java:36 | folding leaves no upper-case letter, keeps every other character, and is idempotent |
| AhoCounting.LowerCaseInsensitive | projects/10-AhoCorasickAlgorithm/programmingChallenge/solutions/solution.java:91 | upper- and lower-case spellings of a string fold to the same string |
| AhoCounting.Walk | projects/10-AhoCorasickAlgorithm/programmingChallenge/solutions/solution.java:34-39 | the walk follows or allocates one node per character and ends at the node that spells the keyword |
| AhoCounting.Insert | projects/10-AhoCorasickAlgorithm/programmingChallenge/solutions/solution.java:33-42 | the trie grows by the keyword's missing prefixes, new nodes have no fail link, and only the keyword's node gains the keyword as an output |
| AhoCounting.FollowFails | projects/10-AhoCorasickAlgorithm/programmingChallenge/solutions/solution.java:67-73 | the fail loop assigns the longest proper suffix node of the parent's string + ch |
| AhoCounting.LinkRootChildren | projects/10-AhoCorasickAlgorithm/programmingChallenge/solutions/solution.java:53-56 | the root's children fail to the root, keep their outputs and enter the queue |
| AhoCounting.LinkChildren | projects/10-AhoCorasickAlgorithm/programmingChallenge/solutions/solution.java:61-80 | the children of the node in hand get their fail links, inherit the outputs of their fail node, and enter the queue |
| AhoCounting.BuildLinks | projects/10-AhoCorasickAlgorithm/programmingChallenge/solutions/solution.java:47-82 | every node gets the longest proper suffix node as its fail link, and its outputs grow by the outputs its fail node ends with |
| AhoCounting.FreshCounts | projects/10-AhoCorasickAlgorithm/programmingChallenge/solutions/solution.java:47-82 | after one build over freshly inserted keywords, every node's outputs are exactly the inserted keywords ending its string, once per insertion |
| AhoCounting.DeepestLongest | projects/10-AhoCorasickAlgorithm/programmingChallenge/solutions/solution.java:93-102 | the deepest node ending a string is its longest suffix node |
| AhoCounting.Step | projects/10-AhoCorasickAlgorithm/programmingChallenge/solutions/solution.java:96-101 | one character of search: from the longest suffix node of w to that of w + [c] |
| AhoCounting.StepDeepest | projects/10-AhoCorasickAlgorithm/programmingChallenge/solutions/solution.java:96-101 | the node search reaches after s[..i + 1] is the deepest node ending it |
| AhoCounting.Count | projects/10-AhoCorasickAlgorithm/programmingChallenge/solutions/solution.java:87-107 | the loop adds, for each position of the text, the number of outputs of the node it reaches |
| AhoCounting.CountsOccurrences | projects/10-AhoCorasickAlgorithm/programmingChallenge/solutions/solution.java:86-108 | with the outputs of a fresh build, search counts the keyword occurrences in the text |
| AhoCounting.CountAt | projects/10-AhoCorasickAlgorithm/programmingChallenge/solutions/solution.java:104 | the node reached on w holds as many outputs as keywords end w |
| AhoCounting.InsertKeepsOwn | projects/10-AhoCorasickAlgorithm/programmingChallenge/solutions/solution.java:33-42 | insertion keeps every node holding exactly its own keywords |
| AhoCounting.AhoCorasick.constructor | projects/10-AhoCorasickAlgorithm/programmingChallenge/solutions/solution.java:27-31 | a trie with only the root and no keywords |
| AhoCounting.AhoCorasick.AddKeyword | projects/10-AhoCorasickAlgorithm/programmingChallenge/solutions/solution.java:33-42 | the folded keyword is inserted: the trie grows by its missing nodes and the keyword's node gains it as an output |
| AhoCounting.AhoCorasick.BuildFailLinks | projects/10-AhoCorasickAlgorithm/programmingChallenge/solutions/solution.java:47-82 | fail links to the longest proper suffix nodes, outputs merged along them; on a fresh trie search then counts occurrences |
| AhoCounting.AhoCorasick.Search | projects/10-AhoCorasickAlgorithm/programmingChallenge/solutions/solution.java:86-108 | the sum of the outputs along the folded text; after one fresh build, the number of keyword occurrences in it |
| AhoCounting.AhoCorasick.Report | projects/10-AhoCorasickAlgorithm/programmingChallenge/solutions/solution.java:144-158 | the books with a nonzero search count, each with its index and count; after one fresh build, the count is the number of occurrences |
| AhoCounting.RebuildOvercounts | projects/10-AhoCorasickAlgorithm/programmingChallenge/solutions/solution.java:139-143 | rebuilding after adding "c" to "ab" and "b" leaves "b" twice in the outputs of "ab", so search("ab") is 3 while 2 keyword occurrences end in "ab" |
| AhoCounting.ExampleKeywords | projects/10-AhoCorasickAlgorithm/programmingChallenge/solutions/solution.java:126-131 | keywords "ab" and "b" give nodes "", "a", "ab", "b" with outputs only at "ab" and "b" |
| AhoCounting.RebuildExample | projects/10-AhoCorasickAlgorithm/programmingChallenge/solutions/solution.java:126-149 | main as written answers 3 for the book "ab" after the keyword "c" is added, where 2 keyword occurrences end in "ab" |
| AhoCounting.BuildIndex | projects/10-AhoCorasickAlgorithm/programmingChallenge/solutions/solution.java:126-143 | the corrected build: all keywords inserted, then one build over fresh outputs, so search counts occurrences |
| AhoCounting.CountAfterIndex | projects/10-AhoCorasickAlgorithm/programmingChallenge/solutions/solution.java:86-143 | with the corrected build, search counts the occurrences of the folded keywords in the folded text |
| Lexicographic.LessTotal | projects/11-burrowsWheelerTransform/implementation/burrowsWheeler.java:60 | String.compareTo order: any two strings are equal or ordered one way or the other |
| Lexicographic.LessTransitive | projects/11-burrowsWheelerTransform/implementation/burrowsWheeler.java:60 | the order is transitive |
| Lexicographic.Sort | projects/11-burrowsWheelerTransform/implementation/burrowsWheeler.java:60 | Arrays.sort on strings: the result is a permutation of the input |
| Lexicographic.SortSorted | projects/11-burrowsWheelerTransform/implementation/burrowsWheeler.java:60 | the result of Sort is non-decreasing |
| Lexicographic.SortIncreasing | projects/11-burrowsWheelerTransform/implementation/burrowsWheeler.java:60 | sorting pairwise distinct strings gives a strictly increasing sequence |
| Bwt.Rotations | projects/11-burrowsWheelerTransform/implementation/burrowsWheeler.java:39-50 | one string per index i, equal to t[i..] + t[..i] |
| Bwt.SortedRotations | projects/11-burrowsWheelerTransform/implementation/burrowsWheeler.java:56-63 | the rotations of t sorted: non-decreasing and a permutation of the rotations |
| Bwt.BwtViaSortedRotations | projects/11-burrowsWheelerTransform/implementation/burrowsWheeler.java:71-82 | the last character of every sorted rotation, in row order; a permutation of the characters of t |
| BwtTheory.BwtPermutation | projects/11-burrowsWheelerTransform/implementation/burrowsWheeler.java:71-82 | the transform rearranges the characters of its input |
| BwtTheory.SortedRotationsIncreasing | projects/11-burrowsWheelerTransform/implementation/burrowsWheeler.java:56-63 | with a single end marker the sorted rotations are strictly increasing |
| Tally.RankBwt | projects/11-burrowsWheelerTransform/implementation/burrowsWheeler.java:91-114 | ranks[i] is the number of occurrences of bw[i] before position i, and tots maps exactly the characters of bw to their counts |
| Bwt.SortedKeys | projects/11-burrowsWheelerTransform/implementation/burrowsWheeler.java:126-128 | the keys of the tally listed in strictly increasing order, each exactly once |
| Bwt.FirstCol | projects/11-burrowsWheelerTransform/implementation/burrowsWheeler.java:120-139 | same keys as tots, and first[c] is the sum of the counts of the keys below c |
| Bwt.FirstIsCountBelow | projects/11-burrowsWheelerTransform/implementation/burrowsWheeler.java:116-119 | for the tally of bw, first[c] is the number of characters of bw below c: the first sorted row starting with c |
| BwtTheory.LfShift | projects/11-burrowsWheelerTransform/implementation/burrowsWheeler.java:164-175 | row first[c] + ranks[r] of the sorted rotations holds row r with its last character moved to the front (the last-to-first mapping) |
| Bwt.Tables | projects/11-burrowsWheelerTransform/implementation/burrowsWheeler.java:147-151 | the rank table and the first-row table of the transform |
| Bwt.Walk | projects/11-burrowsWheelerTransform/implementation/burrowsWheeler.java:153-177 | started on the row of rotation j0 of u + "$", the walk rebuilds u[..j0] + "$" |
| Bwt.ReverseBwt | projects/11-burrowsWheelerTransform/implementation/burrowsWheeler.java:144-178 | on the transform of u + "$": when row 0 holds rotation j the result is u[..j] + "$", and when every character of u sorts above '$' the result is u + "$" |
| Bwt.MarkerRow | projects/11-burrowsWheelerTransform/implementation/burrowsWheeler.java:156-163 | the row first['$'] holds the rotation "$" + u |
| Bwt.MarkerFirst | projects/11-burrowsWheelerTransform/implementation/burrowsWheeler.java:156-163 | when every character of u sorts above '$', row 0 holds the rotation "$" + u |
| Bwt.RowZeroCounterexample | projects/11-burrowsWheelerTransform/implementation/burrowsWheeler.java:153-164 | on "!a", row 0 holds "!a$" itself, so the walk from row 0 returns "$" instead of the input |
| Bwt.ReverseBwtFromMarkerRow | projects/11-burrowsWheelerTransform/implementation/burrowsWheeler.java:144-178 | started on row first['$'], the walk returns exactly u + "$" for every u without a marker |
| BwtGaps.SortedKeys | projects/11-burrowsWheelerTransform/programmingChallenge/solutions/pcSol_java.java:24 | the keys in strictly increasing order, each once, as a TreeSet iterates them |
| BwtGaps.FirstCol | projects/11-burrowsWheelerTransform/programmingChallenge/solutions/pcSol_java.java:18-30 | same keys as tots; first[v] is the half-open row range that begins at the total count of the keys below v and holds tots[v] rows |
| BwtGaps.SpanOfTally | projects/11-burrowsWheelerTransform/programmingChallenge/solutions/pcSol_java.java:18-30 | for the tally of bw, the range of v starts at the number of entries below v and holds the occurrences of v |
| BwtGaps.FirstRangesOrdered | projects/11-burrowsWheelerTransform/programmingChallenge/solutions/pcSol_java.java:18-30 | the ranges are non-empty, lie within the rows, and follow the order of their keys without overlapping |
| BwtGaps.FirstRangesCover | projects/11-burrowsWheelerTransform/programmingChallenge/solutions/pcSol_java.java:18-30 | every row lies in the range of some key |
| BwtGaps.Tables | projects/11-burrowsWheelerTransform/programmingChallenge/solutions/pcSol_java.java:36-38 | the rank list and the row ranges of the transform |
| BwtGaps.LfInjective | projects/11-burrowsWheelerTransform/programmingChallenge/solutions/pcSol_java.java:48 | the row mapping first[c][0] + ranks[row] sends distinct rows to distinct rows |
| BwtGaps.LfOnto | projects/11-burrowsWheelerTransform/programmingChallenge/solutions/pcSol_java.java:48 | every row is the image of some row |
| BwtGaps.OrbitBound | projects/11-burrowsWheelerTransform/programmingChallenge/solutions/pcSol_java.java:45-49 | with a single, least sentinel the walk from row 0 meets the sentinel within \|bw\| - 1 steps, so the loop ends |
| BwtGaps.Walk | projects/11-burrowsWheelerTransform/programmingChallenge/solutions/pcSol_java.java:40-50 | the record of the walk from row 0 up to the row holding the sentinel, which it always reaches |
| BwtGaps.ReverseBwt | projects/11-burrowsWheelerTransform/programmingChallenge/solutions/pcSol_java.java:32-53 | ends with the sentinel, lists the entries the walk visits in reverse order, has length \|bw\| exactly when the walk visits every row, and is then a permutation of bw |
| BwtGaps.CompleteReading | projects/11-burrowsWheelerTransform/programmingChallenge/solutions/pcSol_java.java:102 | a walk that visits every row reads a rearrangement of bw |
| BwtGaps.SortInts | projects/11-burrowsWheelerTransform/programmingChallenge/solutions/pcSol_java.java:64-65 | Collections.sort on integers: a permutation of the input |
| BwtGaps.SortIntsSorted | projects/11-burrowsWheelerTransform/programmingChallenge/solutions/pcSol_java.java:64-65 | the result of SortInts is non-decreasing |
| BwtGaps.Gaps | projects/11-burrowsWheelerTransform/programmingChallenge/solutions/pcSol_java.java:67-89 | every range holds only candidates (values above the second entry, up to k or the largest entry) and is a single entry or a run of non-entries; ranges are disjoint and every candidate is covered |
| BwtGaps.IndexOf | projects/11-burrowsWheelerTransform/programmingChallenge/solutions/pcSol_java.java:91 | arr.indexOf(v): the first position holding v, or -1 exactly when v is absent |
| BwtGaps.CountValid | projects/11-burrowsWheelerTransform/programmingChallenge/solutions/pcSol_java.java:92-105 | the sum of the sizes of the ranges whose first value, put in place of the zero, makes the transform invert completely |
| BwtGaps.Solve | projects/11-burrowsWheelerTransform/programmingChallenge/solutions/pcSol_java.java:55-108 | the answer, stated on the input alone, is the number of values v with 0 < v <= max(k, largest entry) that, put in place of the first 0 (the position indexOf(0) finds), make the transform invert completely; the sorted entries and gap ranges carry the guarantees of Gaps, and the answer is also the total of the ranges accepted by their first value |
| BwtGaps.LfSame | projects/11-burrowsWheelerTransform/programmingChallenge/solutions/pcSol_java.java:4-30 | two arrays whose entries compare alike, position by position, get the same last-to-first mapping, since ranks and first rows depend only on comparisons |
| BwtGaps.CompleteSame | projects/11-burrowsWheelerTransform/programmingChallenge/solutions/pcSol_java.java:32-53 | two arrays that compare alike and hold the sentinel at the same positions walk the same rows, so both or neither invert completely |
| BwtGaps.SecondIsZero | projects/11-burrowsWheelerTransform/programmingChallenge/solutions/pcSol_java.java:64-91 | with a single least sentinel and an unknown entry 0, the second sorted entry is 0, so the ranges hold only positive values |
| BwtGaps.GapUniform | projects/11-burrowsWheelerTransform/programmingChallenge/solutions/pcSol_java.java:94-105 | every value of a gap range inverts exactly when the range's first value does, the reason the program counts a whole range by testing its first value |
| BwtGaps.ScoreIsHits | projects/11-burrowsWheelerTransform/programmingChallenge/solutions/pcSol_java.java:99-105 | the amount a range adds to the answer is the number of its values that invert |
| BwtGaps.AcceptedIsHits | projects/11-burrowsWheelerTransform/programmingChallenge/solutions/pcSol_java.java:99-105 | the total over disjoint ranges is the number of values in them that invert |
| BwtGaps.CoveredIsCandidate | projects/11-burrowsWheelerTransform/programmingChallenge/solutions/pcSol_java.java:72-89 | a value lies in some range exactly when it is positive and at most max(k, largest entry) |
| BwtGaps.HitsAreCandidates | projects/11-burrowsWheelerTransform/programmingChallenge/solutions/pcSol_java.java:67-105 | the total of the accepted ranges is the number of candidate values that invert |
| BwtGaps.FirstZero | projects/11-burrowsWheelerTransform/programmingChallenge/solutions/pcSol_java.java:91 | the position of the first 0: it holds 0 and no 0 comes before it |
| BwtGaps.Largest | projects/11-burrowsWheelerTransform/programmingChallenge/solutions/pcSol_java.java:81 | the largest entry, which elements.get(n - 1) reads after the sort: it is an entry and no entry exceeds it |
| BwtGaps.TopIsLargest | projects/11-burrowsWheelerTransform/programmingChallenge/solutions/pcSol_java.java:65-82 | the last of the sorted entries is the largest entry, so the top candidate is max(k, largest entry); the first-0 position is unique |
| BwtGaps.FirstZeroOnly | projects/11-burrowsWheelerTransform/programmingChallenge/solutions/pcSol_java.java:91 | any position holding 0 with no 0 before it is the first-0 position |
| Kmp.FillLps | projects/12-KnuthMorrisPratt/implementation/KMP.java:9-21 | given lps[0] == 0, the loop leaves in every lps[i] the length of the longest proper border of pat[..i+1] |
| Kmp.ConstructLps | projects/12-KnuthMorrisPratt/implementation/KMP.java:5-22 | fails exactly on the empty pattern (the write to lps[0]); otherwise lps is the prefix function of pat |
| Kmp.PrefixFunctionBounds | projects/12-KnuthMorrisPratt/implementation/KMP.java:6-20 | a prefix function has lps[0] == 0 and 0 <= lps[i] <= i |
| Kmp.NoMatchBetween | projects/12-KnuthMorrisPratt/implementation/KMP.java:44-48 | the fall-back from j to lps[j-1] skips no occurrence of pat |
| Kmp.Search | projects/12-KnuthMorrisPratt/implementation/KMP.java:24-55 | fails exactly on the empty pattern; otherwise returns strictly increasing indices, each an occurrence of pat in txt, and every occurrence is among them |
| KmpMining.ConstructLps | projects/12-KnuthMorrisPratt/programmingChallenge/solutions/IPCMining.java:24-39 | a fresh array of the substring's length holding the prefix function of the substring |
| KmpMining.TextSearcher.constructor | projects/12-KnuthMorrisPratt/programmingChallenge/solutions/IPCMining.java:14-22 | a searcher for substring that has read nothing, with i == j == 0 and no match found |
| KmpMining.TextSearcher.ReadCharacter | projects/12-KnuthMorrisPratt/programmingChallenge/solutions/IPCMining.java:41-66 | on a non-empty substring: the character is appended to what was read, i counts the characters read, j stays in [0, \|substring\|) as the longest partial match, and match_found holds exactly when what was read ends with the whole substring |
| KmpMining.TextSearcher.JustFoundMatch | projects/12-KnuthMorrisPratt/programmingChallenge/solutions/IPCMining.java:68-71 | true exactly when the substring is non-empty and the text read so far ends with it |
| KmpMining.MatchStep | projects/12-KnuthMorrisPratt/programmingChallenge/solutions/IPCMining.java:43-53 | a character equal to substring[j] extends the longest partial match by one; a whole match is reported and j falls back to lps[j] |
| KmpMining.FallEnd | projects/12-KnuthMorrisPratt/programmingChallenge/solutions/IPCMining.java:55-64 | after the fall-back loop on a mismatch, j is the longest partial match of the extended text and no whole match was made |
| KmpMining.NewSearchers | projects/12-KnuthMorrisPratt/programmingChallenge/solutions/IPCMining.java:84-91 | one fresh, distinct searcher per substring, each tracking its substring and having read nothing |
| KmpMining.GeneralSearcher.constructor | projects/12-KnuthMorrisPratt/programmingChallenge/solutions/IPCMining.java:78-92 | stores text, jewels and bombs and builds a fresh searcher for each, none shared |
| KmpMining.GeneralSearcher.GetIndices | projects/12-KnuthMorrisPratt/programmingChallenge/solutions/IPCMining.java:94-134 | the result equals the mine scan Scan of the text: the set of mines marked by a jewel and not unmarked by a later bomb, or the StringIndexOutOfBounds failure of an empty jewel or bomb |
| KmpMining.GeneralSearcher.ReadLetter | projects/12-KnuthMorrisPratt/programmingChallenge/solutions/IPCMining.java:107-130 | one non-space character of get_indices: all searchers read it and the scan from the next position continues from the updated marks, mine index and position |
| KmpMining.GeneralSearcher.ReadJewels | projects/12-KnuthMorrisPratt/programmingChallenge/solutions/IPCMining.java:109-115 | fails exactly when a jewel is empty; otherwise the mine is added exactly when some jewel ends the text read |
| KmpMining.GeneralSearcher.ReadBombs | projects/12-KnuthMorrisPratt/programmingChallenge/solutions/IPCMining.java:117-127 | fails exactly when a bomb is empty; otherwise each bomb that ends the text read unmarks the current mine, advances the mine index and skips to the end of the word |
| KmpMining.GeneralSearcher.SkipRest | projects/12-KnuthMorrisPratt/programmingChallenge/solutions/IPCMining.java:122-124 | moves to the first space at or after i, or to the end of the text |
| KmpMining.SkipWord | projects/12-KnuthMorrisPratt/programmingChallenge/solutions/IPCMining.java:122-124 | the first space at or after pos, or the text's length; no space lies between |
| KmpMining.NoJewelsNoMines | projects/12-KnuthMorrisPratt/programmingChallenge/solutions/IPCMining.java:108-115 | without jewels the scan marks no mine |
| KmpMining.NoBombsKeepsMarks | projects/12-KnuthMorrisPratt/programmingChallenge/solutions/IPCMining.java:116-127 | without bombs a marked mine stays marked |
| KmpMining.ScanFails | projects/12-KnuthMorrisPratt/programmingChallenge/solutions/IPCMining.java:43-58 | the scan fails exactly when an empty jewel or bomb meets a character other than a space |
| KmpMining.GeneralSearcher.Feed | projects/12-KnuthMorrisPratt/programmingChallenge/solutions/IPCMining.java:110-120 | feeding one character to the k-th searcher reports a hit exactly when its substring ends the text read so far, and leaves every other searcher as it was |
| KmpMining.GeneralSearcher.BombHit | projects/12-KnuthMorrisPratt/programmingChallenge/solutions/IPCMining.java:120-126 | after one bomb's test the results, the mine index and the position again agree with the bombs tested so far: a hit removes the mine and skips to the next one |
| DfaMinimizer.Expand | projects/13-Hopcroft/implementation/HopcroftMinimizer.java:49-54 | every target of s not yet visited is queued behind the old queue, and every queued state is reachable |
| DfaMinimizer.Visit | projects/13-Hopcroft/implementation/HopcroftMinimizer.java:45-55 | the head of the queue is polled and added to the visited states; the search makes progress |
| DfaMinimizer.Reachable | projects/13-Hopcroft/implementation/HopcroftMinimizer.java:40-56 | exactly the states some word over the alphabet leads to from start |
| DfaMinimizer.ReachableFromClosed | projects/13-Hopcroft/implementation/HopcroftMinimizer.java:40-56 | a closed set of states that words lead to holds exactly the reachable states |
| DfaMinimizer.PruneKeepsRuns | projects/13-Hopcroft/implementation/HopcroftMinimizer.java:58-66 | every run from start is the same over the pruned transitions |
| DfaMinimizer.CompletedTotal | projects/13-Hopcroft/implementation/HopcroftMinimizer.java:70-92 | after makeTotal every (state, symbol) has a transition, the trap loops to itself, the old transitions stay, and an automaton with no gap is unchanged |
| DfaMinimizer.FillRow | projects/13-Hopcroft/implementation/HopcroftMinimizer.java:75-81 | the gaps of state s go to the trap; gap is true exactly when s had one |
| DfaMinimizer.FillAll | projects/13-Hopcroft/implementation/HopcroftMinimizer.java:74-82 | the gaps of every state go to the trap; needsTrap is true exactly when some state had a gap |
| DfaMinimizer.Complete | projects/13-Hopcroft/implementation/HopcroftMinimizer.java:70-92 | the states and transitions makeTotal leaves: the completed states and the completed map |
| DfaMinimizer.AddTrapLoops | projects/13-Hopcroft/implementation/HopcroftMinimizer.java:86-91 | the trap moves to itself on every symbol |
| DfaMinimizer.EquivalentStep | projects/13-Hopcroft/implementation/HopcroftMinimizer.java:111-148 | equivalent states move to equivalent states on every symbol |
| DfaMinimizer.PreimageSaturated | projects/13-Hopcroft/implementation/HopcroftMinimizer.java:113-121 | the preimage of a saturated block is saturated |
| DfaMinimizer.RefineSaturated | projects/13-Hopcroft/implementation/HopcroftMinimizer.java:123-147 | splitting saturated blocks by a saturated splitter leaves saturated blocks |
| DfaMinimizer.InitialBlocks | projects/13-Hopcroft/implementation/HopcroftMinimizer.java:101-106 | the accepting states and the others, each only when non-empty: a partition of the states that respects acceptance |
| DfaMinimizer.InitialSaturated | projects/13-Hopcroft/implementation/HopcroftMinimizer.java:101-106 | the first partition never separates equivalent states |
| DfaMinimizer.Preimage | projects/13-Hopcroft/implementation/HopcroftMinimizer.java:113-121 | X holds exactly the states whose transition on c enters A |
| DfaMinimizer.SplitAll | projects/13-Hopcroft/implementation/HopcroftMinimizer.java:123-147 | the pass over P splits each block by X and updates the worklist as the source does |
| DfaMinimizer.RefineRound | projects/13-Hopcroft/implementation/HopcroftMinimizer.java:110-148 | one poll keeps a partition respecting acceptance and, on a total automaton, keeps every block and worklist entry saturated |
| DfaMinimizer.Refinement | projects/13-Hopcroft/implementation/HopcroftMinimizer.java:101-149 | the final blocks partition the states, never mix accepting with other states, and on a total automaton never separate equivalent states |
| DfaMinimizer.Least | projects/13-Hopcroft/implementation/HopcroftMinimizer.java:153 | Collections.min: a state of the block no other state of the block is below |
| DfaMinimizer.SortBlocks | projects/13-Hopcroft/implementation/HopcroftMinimizer.java:153 | the sort keeps the blocks, as a multiset, and keeps them non-empty |
| DfaMinimizer.SortedPartition | projects/13-Hopcroft/implementation/HopcroftMinimizer.java:152-153 | the sorted blocks are the same partition, with strictly increasing least states |
| DfaMinimizer.Decimal | projects/13-Hopcroft/implementation/HopcroftMinimizer.java:156 | Integer.toString of a non-negative int: a non-empty string of digits |
| DfaMinimizer.DecimalValue | projects/13-Hopcroft/implementation/HopcroftMinimizer.java:156 | reading a label back gives the number it came from |
| DfaMinimizer.DecimalInjective | projects/13-Hopcroft/implementation/HopcroftMinimizer.java:156 | distinct numbers get distinct labels |
| DfaMinimizer.IndexBlocks | projects/13-Hopcroft/implementation/HopcroftMinimizer.java:154-157 | every sorted block is a key, and the i-th block (its last occurrence) is named Decimal(i) |
| DfaMinimizer.LabelBlock | projects/13-Hopcroft/implementation/HopcroftMinimizer.java:163 | every state of the block gets label idx; the other entries stay |
| DfaMinimizer.RepMap | projects/13-Hopcroft/implementation/HopcroftMinimizer.java:160-164 | every state of the blocks is mapped, to the label of the last block holding it |
| DfaMinimizer.MapAccept | projects/13-Hopcroft/implementation/HopcroftMinimizer.java:169-170 | the new accepting labels are exactly the labels of the accepting states |
| DfaMinimizer.QuotientRow | projects/13-Hopcroft/implementation/HopcroftMinimizer.java:175-182 | the representative's transitions are added under its label, and ok reports whether every target has a label |
| DfaMinimizer.QuotientTf | projects/13-Hopcroft/implementation/HopcroftMinimizer.java:173-183 | the quotient transitions of every block, and ok exactly when no target is left without a label |
| DfaMinimizer.LabelsOf | projects/13-Hopcroft/implementation/HopcroftMinimizer.java:154-164 | block i is named Decimal(i) and every state carries the label of its block |
| DfaMinimizer.AcceptLabels | projects/13-Hopcroft/implementation/HopcroftMinimizer.java:167-170 | Decimal(i) is accepting exactly when block i meets the accepting states |
| DfaMinimizer.TfLabels | projects/13-Hopcroft/implementation/HopcroftMinimizer.java:172-183 | the quotient moves block i on c to the block of the target of its least state, and has no other transitions |
| DfaMinimizer.Label | projects/13-Hopcroft/implementation/HopcroftMinimizer.java:151-186 | a quotient automaton over the block names when the start and every representative's target lie in a block, and None otherwise |
| DfaMinimizer.Quotient | projects/13-Hopcroft/implementation/HopcroftMinimizer.java:101-186 | the refined blocks, sorted by least state, and the automaton over their names |
| DfaMinimizer.TrimClosed | projects/13-Hopcroft/implementation/HopcroftMinimizer.java:39-67 | trimming keeps start, the accepting states and every kept target among the kept states |
| DfaMinimizer.CompletedClosed | projects/13-Hopcroft/implementation/HopcroftMinimizer.java:70-92 | completion makes the automaton total on the completed states, with every target among them |
| DfaMinimizer.Dfa.constructor | projects/13-Hopcroft/implementation/HopcroftMinimizer.java:29-36 | the automaton holds copies of its arguments |
| DfaMinimizer.Dfa.RemoveUnreachable | projects/13-Hopcroft/implementation/HopcroftMinimizer.java:39-67 | states, accepting states and transitions are cut down to those reachable from start, and every state left is reachable |
| DfaMinimizer.Dfa.MakeTotal | projects/13-Hopcroft/implementation/HopcroftMinimizer.java:70-92 | states and transitions become the completed ones: every gap goes to a trap that loops to itself |
| DfaMinimizer.Dfa.Minimize | projects/13-Hopcroft/implementation/HopcroftMinimizer.java:95-187 | trims and completes the automaton, then returns the quotient over a partition that respects acceptance and never separates equivalent states; on a well-formed automaton the quotient always exists |
| ProductPairs.Run | projects/13-Hopcroft/programmingChallenge/solutions/Solution.java:33-46 | the state a word over {a, b} leads to lies among the states |
| ProductPairs.Step | projects/13-Hopcroft/programmingChallenge/solutions/Solution.java:37-62 | the successor pair of a pair of states is again a pair of states |
| ProductPairs.PairKeyInjective | projects/13-Hopcroft/programmingChallenge/solutions/Solution.java:29-39 | for states below 2^31 the long key (p << 32) \| q identifies the pair |
| ProductPairs.Lookup | projects/13-Hopcroft/programmingChallenge/solutions/Solution.java:40-64 | looking a pair up by its key finds it exactly when it is listed, at its own index |
| ProductPairs.KeysBounded | projects/13-Hopcroft/programmingChallenge/solutions/Solution.java:26-46 | the keys stay below their bound, which bounds the number of listed pairs |
| ProductPairs.Offer | projects/13-Hopcroft/programmingChallenge/solutions/Solution.java:39-44 | a reached pair whose key is new is listed and queued; an old key changes nothing |
| ProductPairs.Visit | projects/13-Hopcroft/programmingChallenge/solutions/Solution.java:34-45 | one poll offers both successors of the head pair and keeps the listing closed below the queue |
| ProductPairs.ReachablePairs | projects/13-Hopcroft/programmingChallenge/solutions/Solution.java:26-46 | pair 0 is (s1, s2), the listed pairs are distinct, they are exactly the pairs a word leads to, and the successors of every listed pair are listed |
| ProductPairs.ClosedHoldsRuns | projects/13-Hopcroft/programmingChallenge/solutions/Solution.java:26-46 | a list holding (s1, s2) and closed under both symbols holds every pair a word leads to |
| ProductPairs.Classify | projects/13-Hopcroft/programmingChallenge/solutions/Solution.java:49-55 | cls[i] is the number of final components of pair i |
| ProductPairs.FinalCountRange | projects/13-Hopcroft/programmingChallenge/solutions/Solution.java:54 | cls is 0, 1 or 2: 0 when neither state is final, 2 when both are, 1 when they differ |
| ProductPairs.ProductDelta | projects/13-Hopcroft/programmingChallenge/solutions/Solution.java:57-66 | prodDelta[i][c] is the index of the successor of pair i on c |
| ProductPairs.Predecessors | projects/13-Hopcroft/programmingChallenge/solutions/Solution.java:68-77 | inv[c][j] holds exactly the pairs whose transition on c enters j |
| ProductPairs.ProductRun | projects/13-Hopcroft/programmingChallenge/solutions/Solution.java:57-66 | a run of the product from pair i ends at the pair of the two runs' ends |
| ProductMinimizer.EquivalentStep | projects/13-Hopcroft/programmingChallenge/solutions/Solution.java:95-130 | equivalent product states move to equivalent states on each symbol |
| ProductMinimizer.PreimageSaturated | projects/13-Hopcroft/programmingChallenge/solutions/Solution.java:100-103 | the preimage of a saturated block is saturated |
| ProductMinimizer.RefineSaturated | projects/13-Hopcroft/programmingChallenge/solutions/Solution.java:104-129 | splitting saturated blocks by a saturated splitter leaves saturated blocks |
| ProductMinimizer.GroupSaturated | projects/13-Hopcroft/programmingChallenge/solutions/Solution.java:81-85 | each class is saturated: equivalent states have the same class |
| ProductMinimizer.GroupsPartition | projects/13-Hopcroft/programmingChallenge/solutions/Solution.java:79-88 | the non-empty classes partition the product states, each block one whole class, none separating equivalent states |
| ProductMinimizer.InitialBlocks | projects/13-Hopcroft/programmingChallenge/solutions/Solution.java:79-88 | P is the list of non-empty classes, reject, half, accept |
| ProductMinimizer.InitialWork | projects/13-Hopcroft/programmingChallenge/solutions/Solution.java:89-94 | two entries per block, symbol 0 then symbol 1, in the order of P |
| ProductMinimizer.Preimage | projects/13-Hopcroft/programmingChallenge/solutions/Solution.java:100-103 | X holds exactly the states whose transition on c enters A |
| ProductMinimizer.FullIntersection | projects/13-Hopcroft/programmingChallenge/solutions/Solution.java:108 | inter.size() == Y.size() exactly when Y lies inside X |
| ProductMinimizer.SplitAll | projects/13-Hopcroft/programmingChallenge/solutions/Solution.java:104-129 | the pass over P splits each block by X and updates the worklist as the source does |
| ProductMinimizer.SplitKeeps | projects/13-Hopcroft/programmingChallenge/solutions/Solution.java:95-130 | one split keeps a partition of uniform, saturated blocks and a saturated worklist, and a split that adds no block leaves the worklist alone |
| ProductMinimizer.Refinement | projects/13-Hopcroft/programmingChallenge/solutions/Solution.java:79-130 | the final blocks partition the product states, never mix classes, and never separate equivalent states |
| ProductMinimizer.BlockIds | projects/13-Hopcroft/programmingChallenge/solutions/Solution.java:132-136 | every product state gets the position of the block holding it |
| ProductMinimizer.MinDelta | projects/13-Hopcroft/programmingChallenge/solutions/Solution.java:138-144 | block i moves on c to the block holding the successor of its representative |
| ProductMinimizer.ClassLists | projects/13-Hopcroft/programmingChallenge/solutions/Solution.java:146-155 | the block numbers listed by the class of each block |
| ProductMinimizer.EquivalentPairs | projects/13-Hopcroft/programmingChallenge/solutions/Solution.java:48-77 | two product states are equivalent exactly when their pairs agree, word by word, on how many runs accept |
| ProductMinimizer.SaturatedPairs | projects/13-Hopcroft/programmingChallenge/solutions/Solution.java:79-130 | a block never separates two pairs that agree on every word |
| ProductMinimizer.StepsPicked | projects/13-Hopcroft/programmingChallenge/solutions/Solution.java:138-144 | a block's transition, read on pairs, is the transition of its representative's pair |
| ProductMinimizer.ProductTables | projects/13-Hopcroft/programmingChallenge/solutions/Solution.java:26-77 | the reachable pairs from (s1, s2), their classes, the product transitions and their inverse |
| ProductMinimizer.Reduce | projects/13-Hopcroft/programmingChallenge/solutions/Solution.java:79-155 | the refined partition, the block of each state, the block transitions and the blocks of each class |
| ProductMinimizer.MinimizeProduct | projects/13-Hopcroft/programmingChallenge/solutions/Solution.java:26-155 | the product of the reachable pairs reduced to blocks that never separate equivalent pairs, with the block transitions and the blocks of each class |
| Voronoi.Event.Site | projects/14-voronoiDiagramsFortunesConstruction/implementations/VoronoiDiagram.java:131-136 | a site event keeps its category and site, is keyed by the site's y coordinate and has no heap index yet |
| Voronoi.Event.Circle | projects/14-voronoiDiagramsFortunesConstruction/implementations/VoronoiDiagram.java:138-143 | a circle event keeps its category, is keyed by the circle's bottom and has no heap index yet |
| Voronoi.Before | projects/14-voronoiDiagramsFortunesConstruction/implementations/VoronoiDiagram.java:247-258 | the larger key comes first; on equal keys a circle event on either side comes first |
| Voronoi.TopIsMax | projects/14-voronoiDiagramsFortunesConstruction/implementations/VoronoiDiagram.java:314-322 | in a key-ordered heap slot 1 holds a largest key |
| Voronoi.RunnerUpIsMax | projects/14-voronoiDiagramsFortunesConstruction/implementations/VoronoiDiagram.java:324-328 | every slot below the top has a key no larger than slot 2 or slot 3: the second largest sits in one of them |
| Voronoi.RiseDone | projects/14-voronoiDiagramsFortunesConstruction/implementations/VoronoiDiagram.java:288-295 | once the rising slot is no larger than its parent, the whole heap is key-ordered |
| Voronoi.SinkDone | projects/14-voronoiDiagramsFortunesConstruction/implementations/VoronoiDiagram.java:268-286 | once the sinking slot is no smaller than its children, the whole heap is key-ordered |
| Voronoi.ReplaceStep | projects/14-voronoiDiagramsFortunesConstruction/implementations/VoronoiDiagram.java:304-312 | moving the last event into the removed slot breaks order only at that slot: upward when it beats its parent, downward otherwise |
| Voronoi.EventHeap.constructor | projects/14-voronoiDiagramsFortunesConstruction/implementations/VoronoiDiagram.java:238-241 | a new heap holds only the placeholder slot and no events |
| Voronoi.EventHeap.Empty | projects/14-voronoiDiagramsFortunesConstruction/implementations/VoronoiDiagram.java:243-245 | true exactly when the heap holds no events |
| Voronoi.EventHeap.Compare | projects/14-voronoiDiagramsFortunesConstruction/implementations/VoronoiDiagram.java:247-258 | true implies the first slot's key is at least the second's, false implies at most; equal keys with a circle event answer true |
| Voronoi.EventHeap.Swap | projects/14-voronoiDiagramsFortunesConstruction/implementations/VoronoiDiagram.java:260-266 | the two slots exchange their events and every event's index field again names its slot |
| Voronoi.EventHeap.HeapDown | projects/14-voronoiDiagramsFortunesConstruction/implementations/VoronoiDiagram.java:268-286 | sinking a slot whose only fault is toward its children leaves the heap key-ordered, correctly indexed and holding the same events |
| Voronoi.EventHeap.SinkTo | projects/14-voronoiDiagramsFortunesConstruction/implementations/VoronoiDiagram.java:273-284 | swapping with the larger child and sinking on leaves the heap key-ordered with the same events |
| Voronoi.EventHeap.HeapUp | projects/14-voronoiDiagramsFortunesConstruction/implementations/VoronoiDiagram.java:288-295 | raising a slot whose only fault is toward its parent leaves the heap key-ordered, correctly indexed and holding the same events |
| Voronoi.EventHeap.HeapInsert | projects/14-voronoiDiagramsFortunesConstruction/implementations/VoronoiDiagram.java:297-302 | the heap stays valid, grows by one and holds the old events plus the new one |
| Voronoi.EventHeap.HeapRemove | projects/14-voronoiDiagramsFortunesConstruction/implementations/VoronoiDiagram.java:304-312 | the heap stays valid, shrinks by one and loses exactly the event at the given slot, whose index field is left naming the last slot |
| Voronoi.EventHeap.Resettle | projects/14-voronoiDiagramsFortunesConstruction/implementations/VoronoiDiagram.java:307-311 | raising or sinking the refilled slot, as its key against its parent's decides, restores key order with the same events |
| Voronoi.EventHeap.Detach | projects/14-voronoiDiagramsFortunesConstruction/implementations/VoronoiDiagram.java:305-306 | the slot is swapped with the last one and the last slot dropped: the event leaves the heap and nothing else does |
| Voronoi.EventHeap.HeapMax | projects/14-voronoiDiagramsFortunesConstruction/implementations/VoronoiDiagram.java:314-318 | returns the top event, whose key is at least every key that was in the heap, and removes it, keeping the heap valid |
| Voronoi.EventHeap.HeapPeek | projects/14-voronoiDiagramsFortunesConstruction/implementations/VoronoiDiagram.java:320-322 | returns the top event, whose key is at least every key in the heap |
| Voronoi.EventHeap.HeapDoublePeek | projects/14-voronoiDiagramsFortunesConstruction/implementations/VoronoiDiagram.java:324-328 | fails with an index error exactly when the heap holds fewer than two events; otherwise returns the top event and slot 2 when there is no slot 3 or compare(2, 3) holds and slot 3 otherwise, the top key being at least every key and the second at least every key below the top |
| Voronoi.Node.constructor | projects/14-voronoiDiagramsFortunesConstruction/implementations/VoronoiDiagram.java:53-57 | a new node has the given parent and no children |
| Voronoi.LeftSpineUnique | projects/14-voronoiDiagramsFortunesConstruction/implementations/VoronoiDiagram.java:398-403 | the chain of left children from a node is determined by the node, so the leftmost descendant is well defined |
| Voronoi.LeftSpineNext | projects/14-voronoiDiagramsFortunesConstruction/implementations/VoronoiDiagram.java:398-403 | a left chain continues exactly when the node has a left child, and then continues from that child |
| Voronoi.RightSpineUnique | projects/14-voronoiDiagramsFortunesConstruction/implementations/VoronoiDiagram.java:405-410 | the chain of right children from a node is determined by the node, so the rightmost descendant is well defined |
| Voronoi.RightSpineNext | projects/14-voronoiDiagramsFortunesConstruction/implementations/VoronoiDiagram.java:405-410 | a right chain continues exactly when the node has a right child, and then continues from that child |
| Voronoi.BeachlineTree.constructor | projects/14-voronoiDiagramsFortunesConstruction/implementations/VoronoiDiagram.java:344-346 | a new beach line has no root |
| Voronoi.BeachlineTree.InsertRoot | projects/14-voronoiDiagramsFortunesConstruction/implementations/VoronoiDiagram.java:356-359 | the node becomes the root and is returned |
| Voronoi.BeachlineTree.InsertLeft | projects/14-voronoiDiagramsFortunesConstruction/implementations/VoronoiDiagram.java:361-365 | the node becomes the parent's left child and its parent link points back; the other links are unchanged |
| Voronoi.BeachlineTree.InsertRight | projects/14-voronoiDiagramsFortunesConstruction/implementations/VoronoiDiagram.java:367-371 | the node becomes the parent's right child and its parent link points back; the other links are unchanged |
| Voronoi.BeachlineTree.Remove | projects/14-voronoiDiagramsFortunesConstruction/implementations/VoronoiDiagram.java:373-382 | the parent's link to the node, left or right, is cleared and its other child kept; a root is left alone |
| Voronoi.BeachlineTree.ReplaceParent | projects/14-voronoiDiagramsFortunesConstruction/implementations/VoronoiDiagram.java:384-396 | the node takes its parent's place: as the root when the parent was the root, otherwise in the grandparent's left or right slot, whichever the parent held, with the node's parent link moved to the grandparent; only the root, that parent link and the grandparent's two child links may change |
| Voronoi.BeachlineTree.MinNode | projects/14-voronoiDiagramsFortunesConstruction/implementations/VoronoiDiagram.java:398-403 | returns the end of the node's left chain, a node with no left child |
| Voronoi.BeachlineTree.MaxNode | projects/14-voronoiDiagramsFortunesConstruction/implementations/VoronoiDiagram.java:405-410 | returns the end of the node's right chain, a node with no right child |
| Voronoi.BeachlineTree.PredecessorNode | projects/14-voronoiDiagramsFortunesConstruction/implementations/VoronoiDiagram.java:412-422 | the rightmost node of the left subtree if there is one; otherwise the first ancestor reached from a right child, or null when the way up never turns |
| Voronoi.BeachlineTree.SuccessorNode | projects/14-voronoiDiagramsFortunesConstruction/implementations/VoronoiDiagram.java:424-434 | the leftmost node of the right subtree if there is one; otherwise the first ancestor reached from a left child, or null when the way up never turns |
| Voronoi.BeachlineTree.Climb | projects/14-voronoiDiagramsFortunesConstruction/implementations/VoronoiDiagram.java:414-421 | walks up the parent links to the first ancestor entered from the wanted side, or null when there is none |
| StableMarriage.FindFreeMan | projects/15-GaleShapley/implementation/GaleShapley.java:86-93 | the lowest index whose entry is true, or -1 exactly when every entry is false |
| StableMarriage.BuildRanks | projects/15-GaleShapley/implementation/GaleShapley.java:36-43 | womenRef[w][m] is the rank woman w gives man m |
| StableMarriage.SomeFreeWoman | projects/15-GaleShapley/implementation/GaleShapley.java:50-51 | while a man is free, some woman is free, so the free man's list reaches her |
| StableMarriage.EngageFree | projects/15-GaleShapley/implementation/GaleShapley.java:51-57 | engaging a free woman keeps the pairing one to one, keeps every rejected woman engaged to a man she prefers, and lowers the potential |
| StableMarriage.TradeUp | projects/15-GaleShapley/implementation/GaleShapley.java:59-69 | a woman trading up to the proposer keeps the same invariants and lowers the potential |
| StableMarriage.Propose | projects/15-GaleShapley/implementation/GaleShapley.java:48-73 | one proposal round: the free man gets engaged, all invariants hold, the potential drops, and no engaged woman ends worse off |
| StableMarriage.AllEngagedStable | projects/15-GaleShapley/implementation/GaleShapley.java:45-77 | once every man is engaged, res is a perfect matching, resWomen is its inverse, and no man and woman prefer each other to their partners |
| StableMarriage.GaleShapley | projects/15-GaleShapley/implementation/GaleShapley.java:19-78 | for complete preference lists, terminates with res a perfect matching without a blocking pair |
| LabMatch.BuildRanks | projects/15-GaleShapley/programmingChallenge/solutions/phds.java:126-132 | every row starts at Integer.MAX_VALUE and the lab at position pos of a student's list gets rank pos |
| LabMatch.RankTableBounded | projects/15-GaleShapley/programmingChallenge/solutions/phds.java:126-132 | with lists no longer than Integer.MAX_VALUE every rank lies in [0, MAX_VALUE] |
| LabMatch.PrefersIsLex | projects/15-GaleShapley/programmingChallenge/solutions/phds.java:175-177 | preferring a slot is exactly the lexicographic order on (rank, spot), and never holds of the slot already held |
| LabMatch.Bookkeeping.constructor | projects/15-GaleShapley/programmingChallenge/solutions/phds.java:112-123 | every slot open, every student free, every lab's vacancies at its capacity, no engagement |
| LabMatch.Bookkeeping.Engage | projects/15-GaleShapley/programmingChallenge/solutions/phds.java:206-219 | the state after engage: the slot closed, the student engaged to it in both maps, one vacancy fewer |
| LabMatch.Bookkeeping.Disengage | projects/15-GaleShapley/programmingChallenge/solutions/phds.java:222-229 | the state after disengage: the slot reopened and unmapped, one vacancy more |
| LabMatch.EngageFreeStep | projects/15-GaleShapley/programmingChallenge/solutions/phds.java:164-172 | engaging a free student keeps the bookkeeping consistent and lowers the first component of the termination measure |
| LabMatch.MoveStep | projects/15-GaleShapley/programmingChallenge/solutions/phds.java:173-186 | moving a student to a slot they prefer keeps the bookkeeping consistent and lowers the measure lexicographically |
| LabMatch.MarkStep | projects/15-GaleShapley/programmingChallenge/solutions/phds.java:189-195 | marking an unfillable slot impossible keeps the bookkeeping consistent and lowers the measure |
| LabMatch.ProposeSlot | projects/15-GaleShapley/programmingChallenge/solutions/phds.java:154-187 | the slot is filled by the first student on the lab's list who takes it, either a free student or one who prefers it to the slot they hold; unfilled only when nobody on the list takes it, with the state unchanged |
| LabMatch.VisitSlot | projects/15-GaleShapley/programmingChallenge/solutions/phds.java:149-196 | one slot of the loop: filled as above or marked impossible exactly when nobody takes it; the measure falls |
| LabMatch.VisitLab | projects/15-GaleShapley/programmingChallenge/solutions/phds.java:142-197 | one lab of the loop: the bookkeeping stays consistent, stable is false exactly when a slot was marked impossible, and any progress lowers the measure |
| LabMatch.Match | projects/15-GaleShapley/programmingChallenge/solutions/phds.java:101-203 | each mapped slot is in range and held by a willing student, no student holds two slots, openSpots[l] is the capacity of l minus its held slots, and stable is false exactly when some slot was marked impossible (those slots stay empty) |
| Sorting.InsertBy | projects/16-mosAlgorithm/implementation/mosAlgorithm.java:45 | inserting keeps the elements: the result is the input plus x |
| Sorting.InsertSorted | projects/16-mosAlgorithm/implementation/mosAlgorithm.java:45 | inserting into a sorted sequence keeps it sorted by key |
| Sorting.SortBy | projects/16-mosAlgorithm/implementation/mosAlgorithm.java:45 | Collections.sort with a key comparator: a permutation of the input, sorted by key |
| MoWindow.CompareIsKeyOrder | projects/16-mosAlgorithm/implementation/mosAlgorithm.java:14-19 | sortWithBlockSize(q1, q2) <= 0 exactly when (l / blockSize, r) of q1 is lexicographically at most that of q2, is 0 exactly on equal keys, and is antisymmetric |
| MoWindow.SortQueries | projects/16-mosAlgorithm/implementation/mosAlgorithm.java:45 | a permutation of the queries in which no query compares above a later one |
| MoWindow.GrowLeft | projects/16-mosAlgorithm/implementation/mosAlgorithm.java:54-57 | moving the left end one to the left adds arr[l - 1] to the window |
| MoWindow.GrowRight | projects/16-mosAlgorithm/implementation/mosAlgorithm.java:60-63 | moving the right end one to the right adds arr[r + 1] |
| MoWindow.RetractRight | projects/16-mosAlgorithm/implementation/mosAlgorithm.java:72-75 | a non-empty window is the window up to r - 1 plus arr[r] |
| MoWindow.WindowIsSlice | projects/16-mosAlgorithm/implementation/mosAlgorithm.java:76 | the window [l, r] holds exactly the values of arr[l..r+1], with multiplicity |
| MoWindow.WindowSize | projects/16-mosAlgorithm/implementation/mosAlgorithm.java:98-101 | a window holds r - l + 1 values, so no value more often than that and its bucket exists |
| MoWindow.WindowMembers | projects/16-mosAlgorithm/implementation/mosAlgorithm.java:76 | a value is in the window exactly when some position l..r holds it |
| MoMode.Without | projects/16-mosAlgorithm/implementation/mosAlgorithm.java:113 | LinkedHashSet.remove: exactly the other elements, no repeats introduced |
| MoMode.With | projects/16-mosAlgorithm/implementation/mosAlgorithm.java:108 | LinkedHashSet.add: the old elements and x, no repeats introduced, the first element kept |
| MoMode.ShiftAdd | projects/16-mosAlgorithm/implementation/mosAlgorithm.java:117-127 | moving val from bucket c[val] - 1 to bucket c[val] keeps every bucket f - 1 holding exactly the values of frequency f |
| MoMode.ShiftRemove | projects/16-mosAlgorithm/implementation/mosAlgorithm.java:130-142 | moving val down one bucket keeps the buckets exact for the window without one val |
| MoMode.RemoveModeDrops | projects/16-mosAlgorithm/implementation/mosAlgorithm.java:136-138 | when remove empties the mode's bucket, modeFreq - 1 bounds every frequency and its bucket is not empty |
| MoMode.RemoveModeStays | projects/16-mosAlgorithm/implementation/mosAlgorithm.java:136 | otherwise the mode's bucket keeps a value |
| MoMode.ShiftArrival | projects/16-mosAlgorithm/implementation/mosAlgorithm.java:106-114 | moving val between buckets, stamped as arriving now, keeps every bucket listed in the order its values entered it |
| MoMode.EarliestFirst | projects/16-mosAlgorithm/implementation/mosAlgorithm.java:147-149 | the first value of a bucket entered it no later than any other |
| MoMode.ModeData.constructor | projects/16-mosAlgorithm/implementation/mosAlgorithm.java:88-90 | stores the array |
| MoMode.ModeData.Init | projects/16-mosAlgorithm/implementation/mosAlgorithm.java:93-103 | the data is consistent and holds the empty window: no frequencies, one empty bucket per position, modeFreq 0 |
| MoMode.ModeData.AddToBucket | projects/16-mosAlgorithm/implementation/mosAlgorithm.java:106-109 | adds item to bucket freq - 1, and does nothing for freq 0 |
| MoMode.ModeData.RemoveFromBucket | projects/16-mosAlgorithm/implementation/mosAlgorithm.java:111-114 | removes item from bucket freq - 1, and does nothing for freq 0 |
| MoMode.ModeData.AddCount | projects/16-mosAlgorithm/implementation/mosAlgorithm.java:117-127 | the window gains one val, val moves up one bucket, and frequencies, buckets and modeFreq stay exact (modeFreq the largest frequency) |
| MoMode.ModeData.Add | projects/16-mosAlgorithm/implementation/mosAlgorithm.java:117-127 | the window gains arr[idx] and the data stays consistent, buckets in arrival order |
| MoMode.ModeData.RemoveCount | projects/16-mosAlgorithm/implementation/mosAlgorithm.java:130-142 | the window loses one val, val moves down one bucket, and the data stays exact |
| MoMode.ModeData.Remove | projects/16-mosAlgorithm/implementation/mosAlgorithm.java:130-142 | the window loses arr[idx] and the data stays consistent, buckets in arrival order |
| MoMode.ModeData.Answer | projects/16-mosAlgorithm/implementation/mosAlgorithm.java:145-152 | returns a mode of the window with its positive frequency, and of the tied modes the one that entered the top bucket earliest, as the LinkedHashSet's first element |
| MoMode.Mo.constructor | projects/16-mosAlgorithm/implementation/mosAlgorithm.java:32-35 | stores the block size and the data |
| MoMode.Mo.GrowLeftTo | projects/16-mosAlgorithm/implementation/mosAlgorithm.java:54-57 | the window grows to the left until it starts at ql, and the data holds it |
| MoMode.Mo.GrowRightTo | projects/16-mosAlgorithm/implementation/mosAlgorithm.java:60-63 | the window grows to the right until it ends at qr |
| MoMode.Mo.ShrinkLeftTo | projects/16-mosAlgorithm/implementation/mosAlgorithm.java:66-69 | the window shrinks from the left until it starts at ql |
| MoMode.Mo.ShrinkRightTo | projects/16-mosAlgorithm/implementation/mosAlgorithm.java:72-75 | the window shrinks from the right until it ends at qr |
| MoMode.Mo.Move | projects/16-mosAlgorithm/implementation/mosAlgorithm.java:54-75 | the window moves from [l, r] to [ql, qr] and the data holds exactly the values at ql..qr |
| MoMode.Mo.Visit | projects/16-mosAlgorithm/implementation/mosAlgorithm.java:51-77 | one query: the window becomes [ql, qr] and the answer is a mode of it with its frequency |
| MoMode.Mo.Sweep | projects/16-mosAlgorithm/implementation/mosAlgorithm.java:47-78 | every query of the sorted list gets, at its original index, a mode of its range with its frequency |
| MoMode.Mo.Query | projects/16-mosAlgorithm/implementation/mosAlgorithm.java:37-79 | one answer per query, each a mode of the values at positions l..r with its positive frequency |
| UniqueUsers.SortMessages | projects/16-mosAlgorithm/programmingChallenge/solutions/PcSolJava.java:32 | List.sort by timestamp: the same messages, with ascending timestamps |
| UniqueUsers.UniqueUsersData.constructor | projects/16-mosAlgorithm/programmingChallenge/solutions/PcSolJava.java:30-33 | the data holds the messages sorted by timestamp |
| UniqueUsers.UniqueUsersData.Init | projects/16-mosAlgorithm/programmingChallenge/solutions/PcSolJava.java:36-38 | an empty count map: the data is consistent and holds the empty window |
| UniqueUsers.UniqueUsersData.Add | projects/16-mosAlgorithm/programmingChallenge/solutions/PcSolJava.java:41-44 | the window gains the user at idx and counts stays exact |
| UniqueUsers.UniqueUsersData.Remove | projects/16-mosAlgorithm/programmingChallenge/solutions/PcSolJava.java:48-53 | the window loses one occurrence of the user at idx; a count that reaches 0 is dropped |
| UniqueUsers.UniqueUsersData.Answer | projects/16-mosAlgorithm/programmingChallenge/solutions/PcSolJava.java:56-58 | the number of distinct users in the window |
| UniqueUsers.Mo.constructor | projects/16-mosAlgorithm/programmingChallenge/solutions/PcSolJava.java:66-69 | stores the block size and the data |
| UniqueUsers.Mo.GrowLeftTo | projects/16-mosAlgorithm/programmingChallenge/solutions/PcSolJava.java:95-98 | the window grows to the left until it starts at ql |
| UniqueUsers.Mo.GrowRightTo | projects/16-mosAlgorithm/programmingChallenge/solutions/PcSolJava.java:101-104 | the window grows to the right until it ends at qr |
| UniqueUsers.Mo.ShrinkLeftTo | projects/16-mosAlgorithm/programmingChallenge/solutions/PcSolJava.java:107-110 | the window shrinks from the left until it starts at ql |
| UniqueUsers.Mo.ShrinkRightTo | projects/16-mosAlgorithm/programmingChallenge/solutions/PcSolJava.java:113-116 | the window shrinks from the right until it ends at qr |
| UniqueUsers.Mo.Move | projects/16-mosAlgorithm/programmingChallenge/solutions/PcSolJava.java:95-116 | the window moves from [l, r] to [ql, qr] and the data holds the users at ql..qr |
| UniqueUsers.Mo.Sweep | projects/16-mosAlgorithm/programmingChallenge/solutions/PcSolJava.java:83-119 | each query of the sorted list gets, at its own index, 0 when empty and otherwise the number of distinct users at positions l..r |
| UniqueUsers.Mo.Query | projects/16-mosAlgorithm/programmingChallenge/solutions/PcSolJava.java:71-120 | one answer per query, at the query's own index: 0 for an empty query, else the number of distinct users in its range |
| TimeQueries.LowerBoundFromCorrect | projects/16-mosAlgorithm/programmingChallenge/solutions/PcSolJava.java:124-132 | on an ascending array the search returns the first index whose element is at least key |
| TimeQueries.LowerBound | projects/16-mosAlgorithm/programmingChallenge/solutions/PcSolJava.java:124-132 | the loop's result, in [0, \|arr\|]; on an ascending array, the first index with arr[idx] >= key |
| TimeQueries.UpperBoundFromCorrect | projects/16-mosAlgorithm/programmingChallenge/solutions/PcSolJava.java:135-143 | on an ascending array the search returns the first index whose element exceeds key |
| TimeQueries.UpperBound | projects/16-mosAlgorithm/programmingChallenge/solutions/PcSolJava.java:135-143 | the loop's result, in [0, \|arr\|]; on an ascending array, the first index with arr[idx] > key |
| TimeQueries.Translate | projects/16-mosAlgorithm/programmingChallenge/solutions/PcSolJava.java:178-186 | the index range between lowerBound and upperBound - 1, or (-1, -1) when that range is empty; always answerable |
| TimeQueries.TranslateCovers | projects/16-mosAlgorithm/programmingChallenge/solutions/PcSolJava.java:175-187 | on ascending timestamps the query is empty exactly when no timestamp lies in the range, and otherwise covers exactly the positions whose timestamps lie in it |
| TimeQueries.ExtractTimestamps | projects/16-mosAlgorithm/programmingChallenge/solutions/PcSolJava.java:170-173 | the timestamps of the messages, position by position |
| TimeQueries.TranslateQueries | projects/16-mosAlgorithm/programmingChallenge/solutions/PcSolJava.java:176-187 | one translated query per raw range, at its own position |
| TimeQueries.CountUsersAsWritten | projects/16-mosAlgorithm/programmingChallenge/solutions/PcSolJava.java:145-202 | main as written: each answer is computed on the sorted messages but with the index range found in the unsorted timestamps |
| TimeQueries.AsWrittenCounterexample | projects/16-mosAlgorithm/programmingChallenge/solutions/PcSolJava.java:169-173 | for messages (5, a) and (1, b) and the range [1, 1], main answers 2 while one user wrote at time 1 |
| TimeQueries.SortedAnswer | projects/16-mosAlgorithm/programmingChallenge/solutions/PcSolJava.java:175-193 | with timestamps taken from the sorted messages, the answer of a translated query is the number of distinct users with a message in the range |
| TimeQueries.CountUsers | projects/16-mosAlgorithm/programmingChallenge/solutions/PcSolJava.java:145-202 | main with the timestamps read after the sort: every answer is the number of distinct users with a message in its timestamp range |
| ToomCook.JavaNegate | projects/18-fastMultiplication/implementation/FastMultiplication.java:25-31 | Java's truncating % and / commute with negation |
| ToomCook.Split | projects/18-fastMultiplication/implementation/FastMultiplication.java:21-35 | three parts, the lower two below base in magnitude, all sharing the sign of number |
| ToomCook.SplitSound | projects/18-fastMultiplication/implementation/FastMultiplication.java:21-35 | number == parts[0] + parts[1] * base + parts[2] * base^2, with the bounds and signs of the parts |
| ToomCook.Combine | projects/18-fastMultiplication/implementation/FastMultiplication.java:37-49 | the loop returns the sum of parts[i] * base^i |
| ToomCook.CombineSplit | projects/18-fastMultiplication/implementation/FastMultiplication.java:21-49 | combining the parts of a split gives the number back |
| ToomCook.SplitShrinks | projects/18-fastMultiplication/implementation/FastMultiplication.java:83-87 | every operand of a recursive call is no larger than x, and strictly smaller once \|x\| >= base |
| ToomCook.Coefficients | projects/18-fastMultiplication/implementation/FastMultiplication.java:75-99 | the product polynomial of two three-part numbers has five coefficients |
| ToomCook.Points | projects/18-fastMultiplication/implementation/FastMultiplication.java:83-87 | a part list evaluated at 0, 1, -1, 2 and infinity gives five values |
| ToomCook.Evaluations | projects/18-fastMultiplication/implementation/FastMultiplication.java:83-87 | the five products C(0), C(1), C(-1), C(2) and C(infinity) |
| ToomCook.Interpolated | projects/18-fastMultiplication/implementation/FastMultiplication.java:90-99 | the interpolation step gives five coefficients |
| ToomCook.DivisionsExact | projects/18-fastMultiplication/implementation/FastMultiplication.java:94-97 | both divisions of the interpolation are exact: the dividends are 2(c0 + c2 + c4) and 6 c3 |
| ToomCook.CoefficientsEval | projects/18-fastMultiplication/implementation/FastMultiplication.java:75-103 | the product polynomial evaluated at the base is the product of the operands |
| ToomCook.InterpolateExact | projects/18-fastMultiplication/implementation/FastMultiplication.java:90-99 | interpolating the five exact evaluations recovers the product's coefficients |
| ToomCook.ToomStep | projects/18-fastMultiplication/implementation/FastMultiplication.java:63-103 | the five products of the parts, interpolated and combined, give a * b |
| ToomCook.CallsShrink | projects/18-fastMultiplication/implementation/FastMultiplication.java:83-87 | each recursive call is on a smaller pair of magnitudes, so multiply terminates |
| ToomCook.Interpolate | projects/18-fastMultiplication/implementation/FastMultiplication.java:90-99 | the coefficient array filled in the order the source fills it |
| ToomCook.Multiply | projects/18-fastMultiplication/implementation/FastMultiplication.java:51-104 | multiply(a, b) == a * b for every base rule that gives a base of at least 3 and at most the larger magnitude |
| GoldenRatio.PhiPowStep | projects/18-fastMultiplication/programmingChallenge/solutions/pcsol_java.java:14-24 | multiplying phi^k by phi gives phi^(k+1), for negative k as well |
| GoldenRatio.FibAdd | projects/18-fastMultiplication/programmingChallenge/solutions/pcsol_java.java:14-24 | Fib(t + k) == Fib(t) Fib(k + 1) + Fib(t - 1) Fib(k), the identity behind the powers of phi in Z[phi] |
| GoldenRatio.Padded | projects/18-fastMultiplication/programmingChallenge/solutions/pcsol_java.java:73-85 | padding a digit string with zeros, its last place lowered by the right zeros, keeps its value |
| GoldenRatio.Move | projects/18-fastMultiplication/programmingChallenge/solutions/pcsol_java.java:146-161 | raising digit j by c and lowering digits j+1 and j+2 by c keeps the value, since phi^(m+2) = phi^(m+1) + phi^m |
| GoldenRatio.WeightedLinear | projects/18-fastMultiplication/programmingChallenge/solutions/pcsol_java.java:293-325 | digitwise sums and differences add and subtract values |
| GoldenRatio.DigitsShift | projects/18-fastMultiplication/programmingChallenge/solutions/pcsol_java.java:427-429 | a digit string placed k higher is worth its value times phi^k |
| PhiDigits.CoreBounds | projects/18-fastMultiplication/programmingChallenge/solutions/pcsol_java.java:54-62 | the two scans of trimZeros find the first and last nonzero digits, or show there is none |
| PhiDigits.TrimmedValue | projects/18-fastMultiplication/programmingChallenge/solutions/pcsol_java.java:70-86 | cutting the zeros outside first..last and padding keeps the value |
| PhiDigits.TrimZeros | projects/18-fastMultiplication/programmingChallenge/solutions/pcsol_java.java:51-87 | same value; digits are left zeros, then first-to-last nonzero digits, then right zeros; a zero number gets sign 1 |
| PhiDigits.CanonicalizeInPlace | projects/18-fastMultiplication/programmingChallenge/solutions/pcsol_java.java:96-122 | digits 0 and 1 with a leading zero become a string with no two adjacent 1s and the same value |
| PhiSweeps.RightEquivalent | projects/18-fastMultiplication/programmingChallenge/solutions/pcsol_java.java:146-150 | the ..21.. rewrite keeps the value |
| PhiSweeps.LeftEquivalent | projects/18-fastMultiplication/programmingChallenge/solutions/pcsol_java.java:151-155 | the ..12.. rewrite keeps the value |
| PhiSweeps.SpreadEquivalent | projects/18-fastMultiplication/programmingChallenge/solutions/pcsol_java.java:157-161 | the ..020.. rewrite (0200 = 1001) keeps the value |
| PhiSweeps.CarrySweep | projects/18-fastMultiplication/programmingChallenge/solutions/pcsol_java.java:141-165 | the sweep leaves only digits 0 and 1, a leading 0, and the same value |
| PhiSweeps.ToArray | projects/18-fastMultiplication/programmingChallenge/solutions/pcsol_java.java:137 | the array holds the digits |
| PhiSweeps.ReduceSumTo01 | projects/18-fastMultiplication/programmingChallenge/solutions/pcsol_java.java:132-168 | the digitwise sum of two canonical strings becomes a canonical string of the same value; a zero result gets sign 1 |
| PhiSweeps.Canonicalize | projects/18-fastMultiplication/programmingChallenge/solutions/pcsol_java.java:234-240 | digits 0 and 1 become a canonical string of the same value |
| PhiSweeps.BorrowLeftEquivalent | projects/18-fastMultiplication/programmingChallenge/solutions/pcsol_java.java:196-205 | the 0(-1) borrow keeps the value |
| PhiSweeps.BorrowRightEquivalent | projects/18-fastMultiplication/programmingChallenge/solutions/pcsol_java.java:206-215 | the 1(-1) and 2(-1) borrow keeps the value |
| PhiSweeps.BorrowSweep | projects/18-fastMultiplication/programmingChallenge/solutions/pcsol_java.java:186-220 | every -1 is paid for from the left: the result is a digit sum with a nonzero digit and the same value |
| PhiSweeps.ReduceDiffTo01 | projects/18-fastMultiplication/programmingChallenge/solutions/pcsol_java.java:178-224 | the digitwise difference of two canonical strings, larger first, becomes a canonical string of the same value and sign |
| PhiArith.Pad | projects/18-fastMultiplication/programmingChallenge/solutions/pcsol_java.java:266-287 | start zeros, the digits, end zeros |
| PhiArith.PaddedValue | projects/18-fastMultiplication/programmingChallenge/solutions/pcsol_java.java:262-287 | padding, with the offset lowered by the end zeros, keeps the value |
| PhiArith.Digitwise | projects/18-fastMultiplication/programmingChallenge/solutions/pcsol_java.java:293-325 | digit i of the result is x[i] + c * y[i] |
| PhiArith.SumOfCanonical | projects/18-fastMultiplication/programmingChallenge/solutions/pcsol_java.java:290-297 | the digitwise sum of two canonical strings is a valid input of reduceSumTo01 |
| PhiArith.DiffOfCanonical | projects/18-fastMultiplication/programmingChallenge/solutions/pcsol_java.java:313-326 | the digitwise difference of two canonical strings is a valid input of reduceDiffTo01 |
| PhiArith.LinearValue | projects/18-fastMultiplication/programmingChallenge/solutions/pcsol_java.java:290-326 | a digitwise combination of aligned strings combines their values |
| PhiArith.AlignOffsets | projects/18-fastMultiplication/programmingChallenge/solutions/pcsol_java.java:249-258 | both operands end at the same offset, and only one of them is padded at the end |
| PhiArith.Compare | projects/18-fastMultiplication/programmingChallenge/solutions/pcsol_java.java:305-311 | the difference of the first digits that differ, or 0 when the strings are equal |
| PhiArith.AddHelper | projects/18-fastMultiplication/programmingChallenge/solutions/pcsol_java.java:246-332 | a canonical number worth the sum of the two canonical operands |
| PhiArith.AddAligned | projects/18-fastMultiplication/programmingChallenge/solutions/pcsol_java.java:290-331 | by the signs and the comparison, a canonical sum or difference worth the sum of the aligned operands |
| PhiArith.TrimAll | projects/18-fastMultiplication/programmingChallenge/solutions/pcsol_java.java:341 | the same value, canonical, with no zero at either end |
| PhiArith.Add | projects/18-fastMultiplication/programmingChallenge/solutions/pcsol_java.java:339-342 | canonical and trimmed, worth the sum |
| PhiArith.Subtract | projects/18-fastMultiplication/programmingChallenge/solutions/pcsol_java.java:349-352 | canonical and trimmed, worth the difference |
| PhiArith.ProductStep | projects/18-fastMultiplication/programmingChallenge/solutions/pcsol_java.java:366-374 | adding the next shifted copy of p1 extends the partial product by one digit of p2 |
| PhiArith.MultiplyDigit | projects/18-fastMultiplication/programmingChallenge/solutions/pcsol_java.java:366-374 | one digit of the loop keeps the running product equal to the partial product |
| PhiArith.ProductEnd | projects/18-fastMultiplication/programmingChallenge/solutions/pcsol_java.java:376-377 | after the last digit the running product is the product of the two values |
| PhiArith.Multiply | projects/18-fastMultiplication/programmingChallenge/solutions/pcsol_java.java:359-378 | canonical and trimmed, worth the product |
| PhiArith.IntMul | projects/18-fastMultiplication/programmingChallenge/solutions/pcsol_java.java:386-403 | k times p for k >= 0, and 0 for negative k, which Java's truncating % and / halve towards 0 |
| PhiArith.MakePhiNum | projects/18-fastMultiplication/programmingChallenge/solutions/pcsol_java.java:407-422 | the canonical, trimmed form of a + b phi |
| PhiArith.Shift | projects/18-fastMultiplication/programmingChallenge/solutions/pcsol_java.java:427-429 | same sign and digits |
| PhiArith.ShiftValue | projects/18-fastMultiplication/programmingChallenge/solutions/pcsol_java.java:427-429 | shifting multiplies the value by phi^amount and keeps the form canonical |
| PhiArith.Negate | projects/18-fastMultiplication/programmingChallenge/solutions/pcsol_java.java:434-436 | same digits and offset |
| PhiArith.NegateValue | projects/18-fastMultiplication/programmingChallenge/solutions/pcsol_java.java:434-436 | negating negates the value and keeps the form canonical |
| Minkowski.SubUndoesAdd | projects/19-MinkowskiSum/implementation/minkowskiSum.java:13-19 | point subtraction undoes point addition |
| Minkowski.AddCommutes | projects/19-MinkowskiSum/implementation/minkowskiSum.java:13-15 | point addition is commutative |
| Minkowski.CrossAntisymmetric | projects/19-MinkowskiSum/implementation/minkowskiSum.java:21-23 | swapping the operands of the cross product negates it; a vector's cross product with itself is 0 |
| Minkowski.CrossLinear | projects/19-MinkowskiSum/implementation/minkowskiSum.java:21-23 | the cross product is linear in its first operand |
| Minkowski.FirstLowestUnique | projects/19-MinkowskiSum/implementation/minkowskiSum.java:30-36 | the first position of a lowest vertex (lower y, then lower x) is unique |
| Minkowski.LowestIndex | projects/19-MinkowskiSum/implementation/minkowskiSum.java:30-36 | the first position of a lowest vertex: none is lower and every earlier one is strictly higher; 0 for an empty list |
| Minkowski.RotateLeftAt | projects/19-MinkowskiSum/implementation/minkowskiSum.java:38 | Collections.rotate(P, -pos) moves every element pos places towards the front, wrapping the first pos round, and keeps the same elements |
| Minkowski.PointList.Append | projects/19-MinkowskiSum/implementation/minkowskiSum.java:50-53 | List.add appends one point |
| Minkowski.ReorderPolygon | projects/19-MinkowskiSum/implementation/minkowskiSum.java:29-39 | the list becomes its rotation that starts at its first lowest vertex |
| Minkowski.MergePathBounds | projects/19-MinkowskiSum/implementation/minkowskiSum.java:58-68 | the indices of the merge stay inside [0, n] x [0, m], and each step advances at least one of them |
| Minkowski.Merge | projects/19-MinkowskiSum/implementation/minkowskiSum.java:55-69 | unless the walk stalls, the result lists P[i] + Q[j] along a monotone path of index pairs from (0, 0) to (n, m), with between max(n, m) and n + m points |
| Minkowski.Minkowski | projects/19-MinkowskiSum/implementation/minkowskiSum.java:42-70 | both lists are rotated to start at their lowest vertex and extended by their first two points, and the result is the merge of the two |

## Left out

Integer width and arithmetic:

- Primality.BinaryPower: Java `long` wrap-around of `result * base % mod` is not modelled; the model computes with unbounded integers and so agrees with the source only while the products fit in 64 bits.
- Primality.BinaryPower: requires a base of at least 0, because Java `%` keeps the sign of a negative base and the model uses Euclidean remainder.
- RabinKarpPalindromes.ModPow: requires a base of at least 0, for the same reason; `long` wrap-around of its products is not modelled either.
- RabinKarp.Search: the rolling hashes p, t and h are unbounded, so `int` wrap-around of `d * t + …` is not modelled; the hash values agree with the source only while they fit in 32 bits, and occurrences are decided by the exact comparison in both.
- SegTrees: the sums of SegTreeStandard, SegTreeAdditionAndGet and SegTreeAdditionAndMax are unbounded; Java `int` overflow of a range sum or a lazy addition is not modelled.
- ToomCook.Multiply: Java `long` wrap-around of the split parts, the evaluations and the combined product is not modelled.
- Minkowski.Merge: the `long` cross products are unbounded; overflow for coordinates beyond about 2^31 is not modelled.
- Treaps.Treap.Insert: keys and priorities are unbounded integers; the source's `int` keys and `Math.random()` priorities (a `double`) become an `int` priority passed in by the caller.
- BananaTreaps.InsertNode: the random priority of a new node is a parameter; subtree sizes and times are unbounded integers.
- PhiArith.IntMul: the digit and offset arithmetic of the base-phi numbers is unbounded; `int` overflow, and `Math.abs(Integer.MIN_VALUE)` staying negative in make_PhiNum, are not modelled.

Preconditions narrower than the source:

- SegTrees.SegTreeStandard.constructor: requires a non-empty array, because build on an empty array reads nums[0] and throws; the same holds for SegTrees.SegTreeAdditionAndGet.constructor, SegTrees.SegTreeAssignAndGet.constructor and SegTrees.SegTreeAdditionAndMax.constructor.
- SegTrees.SegTreeAdditionAndGet.Update: requires the range to lie inside the array (or be empty), because the source's recursion dereferences a missing child outside it.
- RangeGcd.RunTestCase: requires a non-empty array, because the source allocates `new int[N - 1]`, and every operation in range, because the source indexes the arrays with it; out-of-range input is an exception in the source.
- RangeGcd.SegTreeGCD.Query: requires the range to be empty or inside the array, which is where the source's recursion stays within its tree.
- TimeQueries.CountUsers: takes the block size as a parameter and requires it to be positive; the source computes `(int) Math.floor(Math.sqrt(M))` in floating point, which is 0 when there are no messages, and then divides by it.
- MoMode.ModeData.Answer: requires a positive top frequency; at frequency 0 the source reads bucket −1 and throws.
- MoMode.ModeData.Remove: requires the value to be present in the window, as every call from the sweep guarantees; the source would otherwise drive a count below zero.
- MoMode.ModeData.Add: requires the value's count to stay below the array length, which holds for every window of the array.
- AhoCorasick.Matcher.BuildAutomaton: requires the keywords to fit in MaxStates (500) states and every character code to lie below MaxCharacters (128); beyond those the source overruns its static arrays. AhoCorasick.Matcher.SearchWords has the same requirements, and AhoCorasick.Matcher.FindNextState requires a character code below 128.
- Minkowski.Minkowski: requires two distinct lists of at least two points each; the source appends sentinels to P and Q, which for one list passed twice would be appended twice.
- Minkowski.Merge: where an iteration advances neither index the source loops forever; the model returns `NoProgress` there instead, and does not prove that this cannot happen for convex input.
- Bwt.ReverseBwt: requires its input to be the transform of a text ending in its only '$'; the source accepts any string, and the model says nothing about other input.
- BwtGaps.ReverseBwt: requires the sentinel -1 exactly once and no entry below it, as the challenge input promises; BwtGaps.Solve requires the same and an unknown entry 0; without a 0, indexOf gives -1 and the first arr.set(-1, ...) throws.
- PhiSweeps.ReduceDiffTo01: requires a leading digit of 1, which addHelper establishes by negating the difference before the sweep.
- Hll.HyperLogLog.constructor: requires a precision between 1 and 63, the widths for which the 64-bit hash leaves both an index and a rank.
- Voronoi.EventHeap.HeapInsert: requires the event not to be in the heap already; the sweep never inserts one event twice, and a second copy would break the index invariant.
- Voronoi.BeachlineTree.ReplaceParent: requires the node's parent to be the root or to have a parent; otherwise the source dereferences null.
- Voronoi.BeachlineTree.MinNode: takes the chain of left children as a ghost argument, and Voronoi.BeachlineTree.MaxNode the chain of right children; Voronoi.BeachlineTree.PredecessorNode and Voronoi.BeachlineTree.SuccessorNode also take the path of parents, so that each walk's result is stated on a finite path rather than on the whole pointer graph.

Properties not proved:

- Primality.MillerRabinDeterministic: ties a `false` answer to some base being a witness, but does not prove that a witness makes n composite (that needs Fermat's little theorem and the square roots of 1 modulo a prime), so `IsPrime(n) ==> probablePrime` is not stated.
- DfaMinimizer.Dfa.Minimize: proves the result is a partition that respects acceptance, never splits equivalent states, and labels blocks by their least state, but not that the final partition is stable under every symbol, so neither language equivalence of the quotient nor its minimality is proved. ProductMinimizer.MinimizeProduct has the same gap.
- DfaMinimizer.Dfa.Minimize: a block without a label is `None` in the model where the source stores a null label.
- ProductMinimizer.MinimizeProduct: the source's Pair compares blocks by identity; the model compares them by value, which agrees because every compared block is one of the current partition's blocks.
- RabinKarp.Search: for the empty pattern only soundness of the reported positions is proved.
- AhoCounting.LowerCase: folds only ASCII A–Z, where Java `toLowerCase()` is Unicode- and locale-aware; the challenge input is ASCII.
- AhoCounting.BuildIndex: duplicate keywords are not treated specially; each copy counts as in the source.
- Lexicographic.Sort: compares characters as Dafny `char` values, that is by code point, where Java's `compareTo` compares UTF-16 code units; the two orders differ only beyond the Basic Multilingual Plane.
- Treaps.Treap.Split: split and merge are modelled on tree values; node sharing between the source's trees and aliasing of the Node objects are not modelled.

Not modelled:

- The Voronoi geometry (parabola intersection, circumcentres, circle events, half-edges, clipping, polygon assembly); predecessorLeaf, successorLeaf and findArc, which depend on it; the arc leaf of a circle event; and the `Point` site's coordinates beyond the key and the x comparison of `compare`. Event keys (a Java `Double`) are modelled as `real`.
- HyperLogLog's cardinality estimate (floating point) and the SHA-1 hash of add; processHash takes the 64-bit hash as a parameter.
- The Bloom filter's Murmur3 hash, which is an abstract function of the item and the probe number, and its sizing (getMByP, optimalK, getProb), which is floating point.
- calculateBase of the Toom-3 implementation (Math.log and Math.pow): ToomCook.Multiply takes the base as a function meeting ValidBase (at least 3, and at most the larger magnitude of the operands).
- toom_3, baseConvHelper and baseConv of the base-phi challenge (a Toom-3 over base-phi digit lists), and its coin-exchange driver in main.
- Random-witness tests (fermatPrime, millerRabin) and every main method, reading of files or standard input, and printing; where a main holds logic (the Aho-Corasick rebuild, the Mo timestamp translation, the range-GCD operations, the treap meal simulation), that logic is modelled as a method over the parsed input.

## Findings

| source | as written | input that shows it | evidently intended | confidence | as-written member | corrected member |
|---|---|---|---|---|---|---|
| projects/11-burrowsWheelerTransform/implementation/burrowsWheeler.java:152-164 | reverseBwt starts its walk at row 0, taking row 0 to be the rotation that begins with '$' | the text "!a": '!' sorts below '$', row 0 is "!a$", and the walk returns "$" | start the walk at the row of '$' in the first column, which recovers the text | not executed | Bwt.RowZeroCounterexample | Bwt.ReverseBwtFromMarkerRow |
| projects/16-mosAlgorithm/programmingChallenge/solutions/PcSolJava.java:169-173 | the timestamp array for the binary searches is copied from the messages in input order, before the messages are sorted | messages (5, a) and (1, b) with the range [1, 1]: the searches on [5, 1] give 2 users where one message lies in the range | copy the timestamps from the sorted messages, so each answer counts the distinct users in the range | not executed | TimeQueries.CountUsersAsWritten, TimeQueries.AsWrittenCounterexample | TimeQueries.CountUsers |
| projects/10-AhoCorasickAlgorithm/programmingChallenge/solutions/solution.java:139-143 | each rebuild after adding a keyword appends the failure link's outputs to every node again without clearing them | keywords "ab" and "b", then add "c" and rebuild: search("ab") answers 3 where 2 keyword occurrences end | outputs computed once per build from a clean trie, so search counts the keyword occurrences exactly | not executed | AhoCounting.RebuildExample, AhoCounting.RebuildOvercounts | AhoCounting.BuildIndex, AhoCounting.CountAfterIndex |
| projects/10-AhoCorasickAlgorithm/implementation/implementation.java:199 | the output mask is a Java int tested with (mask & (1 << j)) > 0, so bit 31 tests negative and keyword j shares bit j mod 32 | 32 keywords, keyword 31 being "b" and the others "c", and the text "b": nothing is reported | every keyword ending at a position is reported, whatever its index | not executed | AhoCorasick.ReportAsWritten, AhoCorasick.KeywordThirtyOneLost | AhoCorasick.Matcher.Report |
