# Factor graph and variable index: structural queries

A Dafny model of the structural layer of GTSAM's inference code: the
factor graph as an ordered sequence of factor slots, and the variable
index derived from it.

- **Factor graph** (`factor_graph.dfy`, module `FactorGraphs`). A graph is
  a sequence of slots. An empty slot (`None`) is a removed factor whose
  position is kept. A factor is its scope, the sequence of keys it
  constrains, plus an opaque `content` number standing for the rest of it,
  so two factors over the same keys can differ. The factor type's own `equals(other, tol)` is a
  parameter `eq: (Factor, Factor, real) -> bool`, because its definition
  belongs to each concrete factor type. The three queries are methods with
  loops, as in the source:
  - `Equals` is a positional comparison that returns early on a mismatch.
  - `NrFactors` counts the non-empty slots.
  - `Keys` collects the union of the scopes into a set.

  Each method is proved against a specification function
  (`GraphsEqual`, `NonNullCount`, `KeysOf`). Lemmas then give those
  functions their meaning: the count equals the number of occupied
  positions, a key is present iff some factor mentions it, the key set
  ignores empty slots and slot order, and equality depends on order.
- **Variable index** (`variable_index.dfy`, module `VariableIndexes`). A
  snapshot of the index is the map from key to factor positions, together
  with the counters `nEntries` and `nFactors`.
  - `Equals` is exact equality of the snapshot.
  - `OutputMetisFormat` writes the METIS hypergraph text, proved equal to
    the function `MetisFormat`. Its inner loop, one variable's line, is the
    method `WriteEdgeLine`.
  - A decoder, `DecodeMetis`, reads the text back. The round-trip lemma
    states the whole content of the export: the header, one line per
    variable in walk order, and each position shifted by one in stored
    order.
- `text.dfy` (module `Text`) holds the stream-level pieces: decimal
  rendering of unsigned integers, text made of terminated pieces, and the
  splitting that inverts it. `wrappers.dfy` holds `Option`.

Output streams become returned strings. The order in which the index's map
is walked is a parameter `order`, which must list every key exactly once
(`IsKeyOrder`). The ascending order of an ordered map is one such list.

The METIS export writes every index followed by a space, so a line reads
`"1 3 "`, not `"1 3"` (`TwoVariableExample`). The header line has no
trailing space.

## Model

| member | source | states |
|---|---|---|
| FactorGraphs.Equals | gtsam/inference/FactorGraph-inst.h:48-62 | true iff the graphs have the same number of slots and each pair of slots is both empty or holds factors `eq` within `tol`; a size mismatch gives false; a true result implies matching emptiness at every position |
| FactorGraphs.SwapBreaksEquality | gtsam/inference/FactorGraph-inst.h:54-61 | comparison is positional: if `eq` is reflexive on the graph's factors, the graph equals itself; swapping two slots that do not agree keeps the same multiset of slots but makes the graph unequal to the original |
| FactorGraphs.SameScopeSwapBreaksEquality | gtsam/inference/FactorGraph-inst.h:54-61 | two factors over the same keys that differ otherwise, compared by identity: the graph equals itself, and exchanging the two makes it unequal |
| FactorGraphs.NonNullCount | gtsam/inference/FactorGraph-inst.h:66-71 | the count of non-empty slots is at most the number of slots, and equals it exactly when no slot is empty |
| FactorGraphs.NonNullCountIsCardinality | gtsam/inference/FactorGraph-inst.h:67-70 | the count equals the number of positions that hold a factor |
| FactorGraphs.NrFactors | gtsam/inference/FactorGraph-inst.h:65-71 | the loop returns the number of occupied positions, which is at most `size()` and is 0 for an empty graph |
| FactorGraphs.InKeysOf | gtsam/inference/FactorGraph-inst.h:76-80 | a key is in the key set iff some non-empty slot's scope contains it (both directions) |
| FactorGraphs.Keys | gtsam/inference/FactorGraph-inst.h:74-81 | the set built by the loop is exactly the set of keys in the scope of some non-empty slot |
| FactorGraphs.KeysOfAppend | gtsam/inference/FactorGraph-inst.h:76-80 | the keys of two concatenated slot sequences are the union of their keys, so a key shared by several factors appears once |
| FactorGraphs.KeysIgnoreEmptySlot | gtsam/inference/FactorGraph-inst.h:78-79 | inserting an empty slot anywhere leaves the key set unchanged |
| FactorGraphs.KeysOfNoFactors | gtsam/inference/FactorGraph-inst.h:76-80 | a graph whose slots are all empty (or that has no slots) has no keys |
| FactorGraphs.KeysOfPermutation | gtsam/inference/FactorGraph-inst.h:77-79 | any reordering of the slots (same multiset) gives the same key set |
| FactorGraphs.ThreeSlotExample | gtsam/inference/FactorGraph-inst.h:66-81 | slots `[F0, empty, F2]` with scopes {1,2} and {2} have 2 factors and keys {1,2} |
| VariableIndexes.Equals | gtsam/inference/VariableIndex.cpp:27-30 | true exactly when the two snapshots are identical: same counters and same key-to-positions map; `tol` plays no part |
| VariableIndexes.EqualsIsEquivalence | gtsam/inference/VariableIndex.cpp:28-29 | the comparison is reflexive, symmetric and transitive, and its result does not depend on the tolerance |
| VariableIndexes.OutputMetisFormat | gtsam/inference/VariableIndex.cpp:46-56 | the written text is `MetisFormat`, and reading it back gives the number of keys, `nFactors`, and one line per key holding its positions plus one |
| VariableIndexes.WriteEdgeLine | gtsam/inference/VariableIndex.cpp:51-52 | one variable's line is its positions, each plus one and followed by a space, and it reads back as the shifted positions in stored order |
| VariableIndexes.HeaderRoundTrip | gtsam/inference/VariableIndex.cpp:47 | the first line reads back as exactly two numbers: the number of keys in the index and `nFactors` |
| VariableIndexes.EdgeLineRoundTrip | gtsam/inference/VariableIndex.cpp:51-52 | a variable's line reads back as its positions plus one, same count, same order |
| VariableIndexes.MetisRoundTrip | gtsam/inference/VariableIndex.cpp:47-54 | decoding the export gives the header numbers and, for each key in walk order, its positions plus one in stored order |
| VariableIndexes.KeyOrderLength | gtsam/inference/VariableIndex.cpp:49 | walking the map visits as many keys as the index holds |
| VariableIndexes.MetisLineCount | gtsam/inference/VariableIndex.cpp:47-54 | the text ends with a newline and holds exactly 1 + (number of keys) newlines |
| VariableIndexes.MetisIndicesOneBased | gtsam/inference/VariableIndex.cpp:51-52 | every index read back is at least 1, and a key's line holds as many indices as the key has positions |
| VariableIndexes.TwoVariableExample | gtsam/inference/VariableIndex.cpp:46-54 | key 1 at [0] and key 2 at [0, 2] with `nFactors` 2 export as `"2 2\n1 \n1 3 \n"` |

## Left out

- `FactorGraph::print` and `VariableIndex::print`: they write to standard output through a caller-supplied key formatter and each factor's own `print`.
- The concrete factor types' `equals`, `begin` and `end`: a factor is its scope plus an opaque `content` number, and its equality is the parameter `eq`. What a factor holds beyond its keys is not modelled.
- The factor graph's mutators and the construction, `augment` and `remove` of the variable index are not part of this model. So the counters `nEntries` and `nFactors` are given fields. No consistency between them and the map is assumed or proved.
- `VariableIndex::size()` is taken to be the number of keys in the map.
- The two objects are values here, not classes. The modelled operations only read their state, so neither in-place update nor aliasing through shared factor handles is modelled.
- `std::map` key order: the walk order is a parameter listing each key once, not the ascending key order.
- Keys are unbounded naturals and positions are unbounded. The 64-bit width of keys and `size_t`, including the wrap of `factor+1` at 2^64 - 1, is not modelled.
- Stream flushing (`os << flush`) has no counterpart in a returned string.
- `gtsam/geometry/ParallaxAnglePoint2.h`: its state is floating-point angles, and its manifold operations are only declared there.
