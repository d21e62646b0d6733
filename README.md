# Tree pairs for Thompson-like groups, in Dafny

This project models the tree-pair engine of the Go package `treepair`. A tree
pair holds an alphabet and two complete prefix codes over it, the domain and the
range, with the same number of leaves. Every leaf carries a label. The element
the pair denotes sends each domain leaf to the range leaf with the same label.
The engine:

- expands and reduces both codes in lock step;
- relabels them (`PermuteLabels`, `ResetLabels`) and inverts the pair;
- minimises the pair;
- classifies the element as lying in F, T or V;
- reads a pair from its depth-first notation `"{11000,10100,1 2 0}"`;
- describes and orders pairs.

## Structure

The prefix-code library that the engine drives is not part of this model.
`prefcode.dfy` and `codeops.dfy` are a stand-in for it:

- A code is a labelled k-ary tree. Child i hangs under the i-th alphabet
  symbol, so the leaves read left to right are in dictionary order.
- `Labels` is the library's `Permutation`.
- `Subtree`, `LabelAtLeaf` (-1 when the word is not a leaf), `GetPrefixOf` and
  `LeafAtLabel` ("" when nothing is found), and `Carets` (`ExposedCarets`)
  are walks over that tree.
- `ExpandAt` turns a word into an exposed caret. The new children of a leaf
  labelled l carry l, l+1, …, and higher labels move up to make room.
  `ReduceAt` undoes this.
- `ApplyPerm` relabels by a map and refuses any map that does not permute the
  code's labels.
- `DecodeDfs` and `ValidDfs` stand for `DFSToPrefCode` and
  `ValidDFSForPrefC`.
- `CodeString` stands for the library's rendering `[word label], …`.
- `NewPrefCodeAlphaString` yields one caret over the alphabet, its children
  labelled 0, 1, … in alphabet order. The basis is the note at
  `treepair_test.go:22-24` that every code has a child for each letter, so
  the empty word is no code, and the expansion test at
  `treepair_test.go:38-52`. A library that started from a single leaf would
  give a different trivial pair.
- `NewPrefCodeAlphaString` refuses an alphabet with fewer than two symbols or
  with a repeated symbol (`GoodAlphabet`). A k-ary code needs k of at least 2,
  and distinct symbols are needed to tell children apart. The library's own
  test for refusal is not shown, so this rule is an assumption too.

These are assumptions about the library, chosen to agree with the expansion
test at `treepair_test.go:38-52`. They are not facts about its source.

The modules, in the order they build on each other:

- `Pairs` (`pairs.dfy`): the pure semantics. The datatype `Pair` is a pair
  value. `WellFormed`, `Paired` (the element) and `Equivalent` (same shapes,
  same element) are predicates. Each engine operation has a function on pairs
  (`ExpandDomainOf`, `ReduceDomainOf`, `ResetOf`, `MinimiseOf`, …), and lemmas
  state what those functions do to the element.
- `Classify` (`classify.dfy`): the F/T/V tests as predicates on the two label
  sequences.
- `TreePairs` (`treepairs.dfy`): `class TreePair`, with the two codes as
  mutable fields. Each method follows the Go method step by step, loops
  included. Its postcondition is the matching `Pairs` function of the old
  state, so every `Pairs` lemma applies to the object.
- `Text` (`text.dfy`): `strings.Split`, joining, `strconv.Atoi` and decimal
  writing, as far as the engine uses them.
- `Dfs` (`dfs.dfy`): `badSpeed`, the depth-first description of a code and its
  decoder.
- `Encoding` (`encoding.dfy`): `EncodeDFS`.
- `Order` (`order.dfy`): `FullString`, `Equals` and `LessEqual`.
- `Golden` (`golden.dfy`): the minimisation example of the package's tests,
  worked on its concrete input. The notation is decoded, the pair is reduced
  twice and then fails to reduce, and the description of the result is
  computed.

`EncodeDFS` can be read as all-or-nothing: fail when the permutation does not
fit the decoded codes, and leave nothing behind on failure. The code does
neither. `Encoding.EncodeOf` follows the code, and the difference is recorded
under Findings.

## Model

| member | source | states |
|---|---|---|
| TreePairs.TreePair.constructor | treepair.go:72-88 | over a good alphabet, a new pair is the trivial pair, naturally labelled and well formed; that it is one caret on each side rests on the assumed library constructor (see Structure) |
| TreePairs.TreePair.NewTreePairAlpha | treepair.go:72-88 | returns nothing exactly when the library refuses the alphabet, which the stand-in assumes happens for fewer than two symbols or a repeated one (see Structure); otherwise the trivial, well-formed pair |
| Pairs.TrivialSpec | treepair.go:72-88 | the trivial pair is well formed and natural, and sends each one-symbol word to itself and nothing else |
| TreePairs.TreePair.Size | treepair.go:493 | the domain's leaf count, which in a valid pair is at least 1 and equals the range's |
| TreePairs.TreePair.ApplyPermDomain | treepair.go:185-187 | the domain becomes the library's relabelling of it and the result is its verdict; the range is untouched |
| TreePairs.TreePair.ApplyPermRange | treepair.go:190-192 | the range becomes the library's relabelling of it and the result is its verdict; the domain is untouched |
| CodeOps.ApplyPermCode | treepair.go:185-192 | a permutation of a valid code's labels is accepted, keeps the shape and validity, and maps the labelling entry by entry |
| TreePairs.TreePair.PermuteLabels | treepair.go:195-199 | both sides are relabelled by the same map and success is the conjunction; on a valid pair with a permutation the result is valid and denotes the same element |
| Pairs.PermuteSpec | treepair.go:195-199 | relabelling a well-formed pair by a permutation succeeds, keeps it well formed and equivalent, and maps the domain labelling through the permutation |
| Classify.PermuteKeepsClass | treepair.go:195-199 | relabelling both sides by one permutation changes neither the F test nor the T test |
| CodeOps.InverseOfPerm | treepair.go:204-214 | the inverse built entry by entry from a valid labelling permutes 0..n-1 and sends each entry back to its position |
| TreePairs.TreePair.ResetLabels | treepair.go:204-214 | the state becomes the reset of the old state; from a valid pair the call succeeds and the result is valid, natural and equivalent to the old pair |
| Pairs.ResetSpec | treepair.go:201-214 | resetting a well-formed pair succeeds, leaves the domain labelled 0..n-1 in dictionary order, and keeps shapes and element |
| Pairs.ResetNatural | treepair.go:201-214 | resetting a natural well-formed pair changes nothing |
| Pairs.ResetIdempotent | treepair.go:201-214 | a second reset changes nothing |
| Pairs.ResetCanonical | treepair.go:201-214 | equivalent well-formed pairs reset to the same pair |
| Pairs.PermuteThenReset | treepair_test.go:187-207 | relabelling a natural pair by any permutation and resetting gives the original pair back |
| TreePairs.TreePair.Invert | treepair.go:217-219 | the two codes swap, and validity is kept both ways |
| Pairs.InvertPaired | treepair.go:217-219 | inverting twice gives the pair back; the inverse pairs r with d exactly when the pair pairs d with r; well-formedness is kept both ways |
| TreePairs.TreePair.ExpandDomainAt | treepair.go:363-383 | the state becomes the domain expansion of the old state; a valid pair stays valid and grows exactly when a domain leaf lies above s |
| Pairs.ExpandDomainNoop | treepair.go:363-383 | with no domain leaf above s, or s off the alphabet, nothing changes |
| Pairs.ExpandDomainParts | treepair.go:363-383 | the domain expands at s and the range at the leaf paired with the replaced leaf, followed by the rest of s |
| Pairs.RangePointSpec | treepair.go:368-380 | the range point is the leaf paired with the replaced domain leaf, and the range expansion replaces it with the same rest |
| Pairs.ExpandDomainSpec | treepair.go:363-383 | the expanded pair is well formed, both sides gain the same number of leaves, and s becomes an exposed domain caret |
| Pairs.ExpandDomainPairing | treepair.go:363-383 | after expansion, leaves under the two replaced leaves are paired by equal suffix; elsewhere the old pairing stands |
| TreePairs.TreePair.ExpandRangeAt | treepair.go:386-391 | the state becomes invert, expand the domain, invert; validity is kept |
| Pairs.ExpandRangeSpec | treepair.go:386-391 | expanding the range of a well-formed pair keeps it well formed, grows both sides equally, and makes s an exposed range caret |
| Pairs.ExpandRangeNoop | treepair.go:386-391 | with no range leaf above s nothing changes |
| Pairs.ExpandDomainDiagonal | treepair.go:363-383 | a pair with one code on both sides keeps one code on both sides after a domain expansion |
| Pairs.ExpandRangeDiagonal | treepair.go:386-391 | likewise for a range expansion |
| Pairs.TrivialExpansions | treepair_test.go:38-52 | the trivial pair expanded in the domain and then in the range still has one code on both sides |
| CodeOps.ExpandAtCode | treepair.go:380-381 | expanding a valid code at a word below a leaf gives a valid code |
| CodeOps.ReduceExpandAt | treepair.go:303-391 | reducing the caret made by expanding a leaf restores the code |
| CodeOps.ExpandReduceAt | treepair.go:343-344 | reducing a caret whose children carry a run of labels in alphabet order and expanding its root again restores the code |
| TreePairs.TreePair.ReduceDomainAt | treepair.go:303-347 | the state becomes the domain reduction of the old state; a valid pair stays valid and shrinks when the call succeeds |
| TreePairs.TreePair.ContainsWord | treepair.go:309-314 | the scan of the exposed domain carets reports true exactly when s is among them |
| TreePairs.TreePair.CheckChildrenRun | treepair.go:330-334 | the loop over the alphabet succeeds exactly when the range caret's children carry the first domain label, the next one, and so on in alphabet order |
| CodeOps.CollapseRunLabels | treepair.go:343 | collapsing an ordered caret to a leaf and closing the gap in the labels leaves a valid labelling with k-1 fewer leaves |
| CodeOps.ReduceAtShape | treepair.go:343 | reducing an exposed caret of a full code, whatever its labels, leaves a full code with k-1 fewer leaves |
| Pairs.ReduceAway | treepair.go:343-344 | a leaf not under the reduced caret stays a leaf; its label drops by k-1 when it lay above the caret's labels and stays otherwise |
| Pairs.ReduceDomainOk | treepair.go:303-347 | a reduction succeeds exactly when s is an exposed domain caret whose children are paired, in alphabet order, with the children of one exposed range caret; on failure the pair is only reset |
| Pairs.ReduceDomainSpec | treepair.go:303-347 | a successful reduction gives a well-formed natural pair with k-1 fewer leaves, where the two carets' roots are paired and the rest keeps its pairing |
| Pairs.ReduceDomainEquivalent | treepair.go:303-347 | whether a reduction succeeds depends only on the element and the shapes, not on the labels |
| Pairs.ReduceStep | treepair.go:303-347 | a reduction keeps the pair well formed and never grows it; a success lowers the size, and a failure only resets |
| TreePairs.TreePair.ReduceRangeAt | treepair.go:351-357 | the state becomes invert, reduce the domain, invert, reset; a valid pair stays valid and natural |
| Pairs.ReduceRangeSpec | treepair.go:351-357 | the range reduction succeeds exactly when the matching range-side carets exist; then the pair is well formed, natural and k-1 leaves smaller; otherwise it is only reset |
| TreePairs.TreePair.Minimise | treepair.go:467-480 | on any pair over a good alphabet whose domain is a full tree, well formed or not, the loop over the exposed domain carets and the recursion end and leave the minimised pair; a valid pair stays valid |
| TreePairs.TreePair.Minimize | treepair.go:483-486 | the same as Minimise, on the same pairs |
| Pairs.ReduceShrinksAnyPair | treepair.go:303-347 | on any pair over a good alphabet with a full domain, a reduction keeps the alphabet and a full domain; the domain loses leaves when the call reports success and keeps its size otherwise |
| Pairs.Pass | treepair.go:471-476 | a round keeps the alphabet and a full domain, keeps a well-formed pair well formed, never grows the domain, and shrinks it when some reduction in it succeeded |
| Pairs.MinimiseOf | treepair.go:467-480 | the rounds end on every pair with a full domain over a good alphabet, because each round that reduces shrinks the domain; the result keeps a full domain, and a well-formed pair stays well formed |
| Pairs.PassSnoc | treepair.go:471-476 | one more caret in the pass applies one more reduction and records whether it succeeded |
| Pairs.PassUnchanged | treepair.go:471-479 | a pass that reduces nothing only resets the pair, and every caret failed |
| Pairs.MinimiseFixpoint | treepair.go:467-480 | after minimising, no exposed domain caret can be reduced, and the pair is natural unless its domain has no exposed caret |
| Pairs.MinimiseIdempotent | treepair.go:467-480 | minimising a minimised pair changes nothing |
| TreePairs.TreePair.InF | treepair.go:223-234 | true exactly when the two label sequences agree at every position |
| TreePairs.TreePair.InT | treepair.go:238-293 | the search over the doubled range sequence returns true exactly when the domain sequence is the range sequence read cyclically from the first position of the domain's first label |
| TreePairs.TreePair.DoubleCopy | treepair.go:244-248 | the buffer holds every range label at its position k and again at k plus the range length, that is, the range sequence twice |
| Classify.InTRotated | treepair.go:251-293 | when the T test holds, the domain sequence is the range sequence rotated to start at the first position of the domain's first label |
| Classify.RotatedInT | treepair.go:251-293 | with distinct range labels, every rotation of the range sequence passes the T test |
| Classify.FirstInDoubled | treepair.go:252-262 | the first match in the doubled sequence lies in its first half, at the value's first position |
| Classify.AbsentFromDoubled | treepair.go:252-266 | a value missing from the doubled sequence is missing from the sequence |
| Classify.InTIsRotation | treepair.go:238-293 | for distinct labels of equal length the T test holds exactly when one sequence is a rotation of the other |
| Classify.InFImpliesInT | treepair.go:223-293 | every element that passes the F test passes the T test |
| TreePairs.TreePair.InV | treepair.go:296 | true for every pair |
| Dfs.BadSpeed | treepair.go:496-525 | rejects exactly the empty word, a word whose counter hits 0 at a '0' before position cap-1, and a word whose final counter is not 0 |
| Dfs.BadSpeedAcceptsTrailingWord | treepair.go:496-525 | "10010" with cap 2 passes the check although it is no valid shape: a caret followed by the fragment "10", which is no tree |
| Dfs.TreesInARowRejected | treepair.go:496-525 | two complete tree descriptions in a row never pass: the counter ends at -1, so the missing check admits only a fragment with zero net change after a tree |
| Dfs.BadSpeedFixed | treepair.go:496-525 | the check with the early-empty test applied at every position rejects exactly the words that are not valid shapes: well-nested words at least cap characters long; characters other than '0' and '1' are ignored, as badSpeed ignores them |
| Dfs.PaddedLeafPasses | treepair.go:496-525 | because other characters are ignored, "x0" passes both badSpeed and its correction at cap 2 although it describes only a leaf; the library's validator refuses it |
| Dfs.ValidDfsStartsWithCaret | treepair.go:121-122 | a word the library's validator accepts for an alphabet of two or more symbols opens with a caret, so it is never the lone leaf |
| Dfs.ValidShapePrefixFree | treepair.go:510-516 | no valid shape is a proper prefix of a well-nested word, so a word the corrected check accepts holds exactly one tree |
| Dfs.ShapeValid | treepair.go:120-124 | the description of any full code that is not a single leaf passes both the intended check and the check as written |
| Dfs.DecodeShape | treepair.go:127-135 | decoding the description of a naturally labelled full code gives the code back |
| Dfs.DecodeSound | treepair.go:127-135 | whatever decodes is a full code labelled 0..n-1 in dictionary order whose description is the word read |
| Dfs.DecodeComplete | treepair.go:120-135 | every word that passes the check decodes |
| Text.SplitJoin | treepair.go:102 | splitting at a separator and joining back gives the string |
| Text.Split | treepair.go:102 | strings.Split at one separator character: always at least one piece |
| Text.JoinSplit | treepair.go:138-139 | joining separator-free pieces and splitting gives the pieces |
| Text.AtoiNatToString | treepair.go:144-150 | every number that fits an int is read back from its decimal form |
| Text.Atoi | treepair.go:145 | strconv.Atoi: an optional sign and decimal digits; a value is returned only when it fits Go's 64-bit int |
| Text.AtoiRefuses | treepair.go:145-149 | the empty token, a lone sign, and a token starting with anything other than a digit or a sign are refused |
| Encoding.ReadPerm | treepair.go:144-151 | the loop stores token k, read as an integer, under key k, and gives up at the first token that is not an integer |
| Encoding.BracedFields | treepair.go:102-114 | three comma-free fields written as "{a,b,c}" split back into three fields, with the brace opening the first and closing the last, and trimming the braces gives the fields back |
| Encoding.EncodeDFS | treepair.go:99-155 | the method's effect and result are those of the reading as written, field by field |
| Encoding.EncodeOf | treepair.go:99-155 | the reading as written: three comma-separated fields in braces, both shapes checked and decoded, the domain stored before the range is decoded, the permutation read token by token, and the range relabelled with the outcome ignored |
| Encoding.EncodeNotation | treepair.go:99-155 | the notation of a natural domain code and any range code reads back as exactly those codes, with success, whatever their sizes |
| Encoding.EncodeRoundTrip | treepair.go:90-98 | every natural well-formed pair is read back from its notation |
| Encoding.EncodeSuccess | treepair.go:99-155 | a reported success guarantees full codes on both sides and a natural domain, and no more |
| Encoding.EncodeAcceptsUnequalSizes | treepair.go:153-154 | "{100,11000,0 1 2}" is accepted with success though it leaves a pair that is not well formed |
| Encoding.EncodeFixedSound | treepair.go:99-155 | the corrected reading leaves the pair alone on failure and yields a natural well-formed pair on success |
| Encoding.EncodeFixedAgrees | treepair.go:99-155 | where the corrected reading succeeds, the reading as written gives the same result |
| Encoding.EncodeFixedRoundTrip | treepair.go:90-98 | the corrected reading still reads every natural well-formed pair back from its notation |
| Order.CodeStringEntries | treepair.go:173-176 | entry n of a code's description names the n-th leaf in dictionary order and carries that leaf's label |
| Order.FullString | treepair.go:173-176 | the description of a pair: the domain's description after "{D: ", then the range's description after a double-bar separator, closed by "}" |
| Order.Equals | treepair.go:180-182 | two pairs are equal when their descriptions are the same string, which compares labelled codes and not the maps they denote |
| Order.EqualsLessEqual | treepair.go:180-182 | pairs that Equals identifies are each LessEqual to the other |
| Order.LessEqual | treepair.go:529-536 | true when A's domain has fewer leaves than B's, and otherwise exactly when A's description is at most B's in byte order |
| Order.LessEqualTotal | treepair.go:529-536 | the order as written is reflexive and compares any two pairs |
| Order.LessEqualBothWays | treepair.go:529-536 | a four-leaf identity and a three-leaf identity are each below the other although their descriptions differ |
| Order.LessEqualFixedOrder | treepair.go:527-536 | the order by domain size and then description is reflexive, total and transitive, and two pairs each below the other are identified by Equals (treepair.go:180-182) |
| Order.LessEqualFixedAgrees | treepair.go:527-536 | the two orders agree whenever the first domain is not larger, and the corrected one never puts a larger domain first |
| Golden.FirstReduction | treepair.go:303-347 | over "01", the five-leaf pair with domain 111000100 and range 111100000 reduces at the domain caret 00 to the four-leaf pair with domain leaves 00, 01, 10, 11 and range leaves 000, 001, 01, 1 |
| Golden.SecondReduction | treepair.go:303-347 | that four-leaf pair reduces at the domain caret 0 to the three-leaf pair with domain leaves 0, 10, 11 and range leaves 00, 01, 1 |
| Golden.FailAt4 | treepair.go:322-340 | the four-leaf pair does not reduce at the domain caret 1: the range leaf 00 is not a leaf, so the labels do not run together there, and the pair is unchanged |
| Golden.FailAt3 | treepair.go:322-340 | the three-leaf pair does not reduce at its only domain caret 1: the range leaf 00 carries 0, not 1, and the pair is unchanged |
| Golden.MinimiseFive | treepair.go:467-480 | minimising the five-leaf pair gives the three-leaf pair: two passes reduce, the last pass finds nothing |
| Golden.EncodeFive | treepair.go:99-155 | reading "{111000100,111100000,0 1 2 3 4}" into the trivial pair over "01" succeeds and gives the five-leaf pair, both codes labelled in order |
| Golden.Description3 | treepair.go:173-176 | the description of the three-leaf pair is the test's expected string: domain part [0 0], [10 1], [11 2] and range part [00 0], [01 1], [1 2], in the layout Order.FullString states |
| Golden.MinimiseTest | treepair_test.go:73-119 | EncodeDFS of the test's notation over "01" succeeds, and Minimise (and Minimize, its alias) turns the result into the three-leaf pair |
| Golden.MinimiseTestDescription | treepair_test.go:73-119 | the Minimise and Minimize tests: after EncodeDFS and minimisation, FullString gives exactly the expected string |

## Left out

- Multiply and Power (treepair.go:394-462) depend on the library's `Join`. They also iterate a Go map in unspecified order.
- The `fmt.Println` diagnostics are output only and do not affect results.
- The stubs `SwapPermAtRangeKeys`, `SwapPermAtDomainKeys`, `DFSString` and `ExposedCarets`, and the getters `Alphabet`, `CodeDomain` and `CodeRange`, hold no logic of their own.
- The prefix-code library itself is not part of this model. It is replaced by the stand-in above. Its storage, its label numbering and its text rendering are assumed, not derived. The golden `FullString` strings of the expansion, permutation and encoding tests are not reproduced; the minimisation test's string is (Golden.MinimiseTestDescription).
- Rune and byte handling: alphabet symbols are single characters, `EncodeDFS`'s trimming of `{` and `}` is by character, and the range root at treepair.go:329, which Go takes by dropping the last byte of the leaf word, drops its last symbol. For a multi-byte symbol Go would cut inside it; the model does not capture that.
- Aliasing: Go's value receivers share the code objects, so in the model every method updates the one object in place. The engine's local copies in `ReduceRangeAt` and `ExpandRangeAt` (invert, operate, invert back) are modelled by their net effect.
- Integer width: labels and sizes are unbounded. Only `Atoi` checks the 64-bit range.
- Encoding.EncodeNotation: stated for codes with at most 2^63-1 leaves, because larger labels cannot be written as Go ints.
- TreePairs.TreePair.Minimise: requires a full domain over an alphabet of at least two distinct symbols. Under the two assumptions about `NewPrefCodeAlphaString` stated in Structure (one caret to start with, no alphabet of fewer than two distinct symbols), every pair the engine builds has one: relabelling, expansion, reduction and `EncodeDFS` keep the domain a full tree.
- TreePairs.TreePair.InF: requires the range to have no more leaves than the domain. The Go loop runs over the range's permutation, so with a larger range it reads past the end of the domain's permutation and panics, unless a mismatch at an earlier index returns false first.
- TreePairs.TreePair.InT: requires the same as InF plus a non-empty domain. These are the conditions under which the Go loops stay within their slices.
- Dfs.BadSpeedFixed: corrects only the early-empty test. Like badSpeed, it ignores characters other than '0' and '1', so a character can pad the lone leaf to cap characters, as "x0" does for cap 2 (Dfs.PaddedLeafPasses). Only over '0' and '1' does an accepted word describe a tree with at least one caret (Dfs.ValidDfsStartsWithCaret).
- TreePairs.TreePair.ReduceDomainAt: requires a non-empty alphabet, because the Go code reads `alphabet[0]`.

## Findings

| source | as written | input that shows it | evidently intended | confidence | as-written member | corrected member |
|---|---|---|---|---|---|---|
| treepair.go:510-516 | the early-empty test fires only for positions below cap-1 | "10010" with cap 2, a caret followed by the fragment "10", which is no tree: the counter is 0 after "100", yet the word passes | the counter reaches 0 only at the last character, so the word describes exactly one tree | not executed | Dfs.BadSpeedAcceptsTrailingWord | Dfs.BadSpeedFixed |
| treepair.go:137-154 | the result of `ApplyPermRange` is ignored, the sizes of the decoded codes are never compared, and the domain is overwritten before later steps can fail | "{100,11000,0 1 2}" over "01": a two-leaf domain, a three-leaf range, and the call reports true | succeed only with two codes of one size and a permutation of their labels, and otherwise leave the pair unchanged | not executed | Encoding.EncodeAcceptsUnequalSizes | Encoding.EncodeFixedSound |
| treepair.go:530-535 | when A's domain is larger than B's, the descriptions still decide | the identity on leaves 0,10,110,111 and the identity on leaves 00,01,1: each is LessEqual to the other | dictionary order on (domain size, description): a larger domain is never below a smaller one | not executed | Order.LessEqualBothWays | Order.LessEqualFixedOrder |
