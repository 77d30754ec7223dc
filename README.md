# Adaptive Huffman coding (FGK) — a Dafny model

This project models the core of an adaptive Huffman coder of the FGK kind: the model class
`AdaptiveHuffmanModel` and the tree nodes (`Node`) it is built from. Encoder and decoder each
run their own copy of the model. Both start from a tree that holds only the
not-yet-transmitted node (NYT). After every character, both update their tree in the same way:

- A first occurrence splits the NYT.
- The leaf's weight, and the weights on the path above it, go up by one.
- Before each increment, a node is swapped with the highest-numbered node of its weight.

A character is sent as its path from the root. A character not seen before is sent as the
path to the NYT, followed by its default code. The default code takes `e` or `e + 1` bits,
where `|alphabet| = 2^e + r`. The last letter of the alphabet marks the end of the input.

How the model is laid out:

- **Nodes** (`node.dfy`). A node record holds its left and right child, its parent, its
  weight and its node number. All nodes live in one arena (class `Nodes.Arena`), and a node
  is named by its index there. The arena's index order is the order of the model's `nodes`
  list. `Node.java`'s mutators become arena methods that take the node's index as their
  receiver. `isLeaf` is the predicate `Nodes.Node.IsLeaf`, and `TreeShape.LeafIffChildless`
  states its property. `isLeftChild` and `isRightChild` are the predicates
  `Nodes.Arena.IsLeftChild` and `Nodes.Arena.IsRightChild`, and `Model.ChildSides` states
  their property: in a well-formed tree the root is neither, and every other node is
  exactly one of them.
- **Model class** (`model.dfy`). `Model.AdaptiveHuffmanModel` keeps the alphabet and its
  constants `e` and `r`, and the fields `root`, `nyt`, `transmitted`, `charByNode` and the
  arena. Its methods update that state in place. Each method is specified by a pure
  function of the model's value, `Model()`.
- **Pure layer.** The model's value is the datatype `ModelState.State`. The functions on it
  are:
  - `ModelState.Reset` and `ModelState.Update`;
  - the tree edits `Restructure.Swapped`, `Nodes.Incremented` and `Split.SplitTree`;
  - the block search `Climbing.MaxInBlock` and the climb `Climbing.Climb`;
  - codes: `Coding.GetCode` and `Coding.Descend`;
  - whole-stream encoding and decoding: `Codec.Encode` and `Codec.Decode`.
- **Invariant** (`ModelState.Valid`). It has two parts:
  - The tree is a numbered strict binary tree: links agree both ways, and numbers grow
    towards the root.
  - The FGK sibling property holds:
    - the NYT is the lowest-numbered leaf, with weight 0;
    - every internal weight is the sum of its children's weights;
    - weights never decrease as node numbers grow;
    - the two registries are inverse to each other and cover every leaf but the NYT.

Main results:

- Every update keeps the invariant, and after any run of characters each leaf weighs as many
  as its character's occurrences.
- Leaf paths are prefix-free, and so are default codes.
- Decoding recovers what encoding produced, character by character and for a whole stream
  (`Codec.RoundTrip`, `Codec.FreshRoundTrip`).
- After a round trip the decoder's model lags the encoder's by one update with the
  end-of-input letter (`Codec.EncoderAhead`). A pair reused for a second stream without
  `reset` therefore no longer agrees.
- The class methods compute exactly these functions: `Encode` and `Decode` on the class
  produce the bits and characters of `Codec.Encode` and `Codec.Decode`.

Bits are `seq<bool>`, most significant bit of each code first. A code pair
`(code, length)` denotes the `length`-bit big-endian string of `code`.

## Model

| member | source | states |
|---|---|---|
| Model.AdaptiveHuffmanModel.constructor | src/huffman/AdaptiveHuffmanModel.java:58-75 | e = floor(log2 \|alphabet\|), r = \|alphabet\| - 2^e, the index map sends each letter to its (last) position, and the model is reset; a distinct alphabet gives a valid model |
| Model.BuildIndexes | src/huffman/AdaptiveHuffmanModel.java:69-72 | the constructor's loop builds the index map IndexesOf(alphabet): its keys are exactly the alphabet's letters, each sent to a position holding it with no later position holding it (a repeated letter keeps its last position) |
| Codec.MakeAlphabet | src/huffman/AdaptiveHuffmanModel.java:58-75 | the alphabet built from a distinct letter list is well formed: 2^e <= size < 2^(e+1), r = size - 2^e, index map inverts the list |
| Codec.IndexesOf | src/huffman/AdaptiveHuffmanModel.java:67-72 | the map built by the put loop holds exactly the letters of the list, each at a position holding it, and no later position holds it |
| DefaultCode.Log2Floor | src/huffman/AdaptiveHuffmanModel.java:63-64 | e is the exact floor of log2 of the alphabet size: 2^e <= size < 2^(e+1) |
| Model.AdaptiveHuffmanModel.Reset | src/huffman/AdaptiveHuffmanModel.java:81-89 | a fresh arena with one node, root and NYT at once, numbered 2\|alphabet\| - 1, nothing transmitted; the model is valid |
| ModelState.Reset | src/huffman/AdaptiveHuffmanModel.java:81-89 | the reset model satisfies the invariant, has root weight 0 and counts every character 0 |
| Model.AdaptiveHuffmanModel.Update | src/huffman/AdaptiveHuffmanModel.java:96-138 | rejected (false, state unchanged) exactly for a character outside the alphabet; otherwise the new state is ModelState.Update's and the invariant holds |
| ModelState.Update | src/huffman/AdaptiveHuffmanModel.java:96-138 | None exactly for a character outside the alphabet; otherwise the invariant is kept, the root gains one, c joins the transmitted set and only c's count rises, by one |
| ModelState.CountsAreOccurrences | src/huffman/AdaptiveHuffmanModel.java:96-138 | after reset and any run of letters, each character's leaf weighs its number of occurrences and the root weighs the run's length |
| Model.AdaptiveHuffmanModel.StartUpdate | src/huffman/AdaptiveHuffmanModel.java:98-123 | the part before the loop: either the update is complete (the split NYT was the root) or the loop's invariant holds at the cursor and the climb from it completes the update |
| Model.AdaptiveHuffmanModel.ClimbFrom | src/huffman/AdaptiveHuffmanModel.java:127-137 | the loop and the final root increment turn the arena into Climbing.Climb of it |
| Model.AdaptiveHuffmanModel.ClimbStep | src/huffman/AdaptiveHuffmanModel.java:129-135 | one loop turn: the arena becomes Step of it (swap with the block's top, increment) and the node returned is the cursor's new parent |
| Model.AdaptiveHuffmanModel.SwapAndIncrement | src/huffman/AdaptiveHuffmanModel.java:116-122 | swap with the partner when it is another node, then increment; returns the cursor's parent after the swap |
| Climbing.Climb | src/huffman/AdaptiveHuffmanModel.java:127-137 | the node list after update's loop and the root's final increment: the node count is kept |
| Climbing.Step | src/huffman/AdaptiveHuffmanModel.java:129-135 | the node list after one turn of update's loop (swap with the block's top, increment): the node count is kept |
| Climbing.ClimbKeeps | src/huffman/AdaptiveHuffmanModel.java:127-137 | from any state satisfying the loop invariant, the climb restores the full sibling-property invariant, adds one to the root and leaves the NYT and the leaf set alone |
| Climbing.ClimbLeafWeights | src/huffman/AdaptiveHuffmanModel.java:127-137 | the climb changes no leaf weight except the starting leaf's, which rises by one |
| Climbing.StepKeepsClimb | src/huffman/AdaptiveHuffmanModel.java:129-135 | one loop turn keeps the loop invariant at the parent, raises only the cursor's weight, and moves to a higher-numbered node |
| Entry.SplitEntry | src/huffman/AdaptiveHuffmanModel.java:105-113 | after splitting the NYT the invariant holds when it was the root, else the loop invariant holds at the old NYT's parent |
| Entry.SiblingEntry | src/huffman/AdaptiveHuffmanModel.java:114-123 | for the NYT's sibling, swapping with the top leaf of its block and incrementing sets up the loop invariant at its new parent |
| Entry.LeafEntry | src/huffman/AdaptiveHuffmanModel.java:127-136 | any other transmitted leaf satisfies the loop invariant as the first cursor |
| Model.AdaptiveHuffmanModel.SplitNYT | src/huffman/AdaptiveHuffmanModel.java:149-170 | the new leaf (numbered one below) and new NYT (two below) are appended in that order as right and left children, the old NYT and the leaf weigh one more, c is registered both ways and the old NYT is returned |
| Split.SplitTree | src/huffman/AdaptiveHuffmanModel.java:149-170 | the node list after splitNYT: two nodes longer, each node as SplitNode gives it |
| Split.SplitStruct | src/huffman/AdaptiveHuffmanModel.java:149-170 | splitting the NYT keeps a numbered strict binary tree |
| Split.SplitNyt | src/huffman/AdaptiveHuffmanModel.java:149-170 | the appended node is the new NYT: a weight-0 leaf numbered below every other node, left child of a parent whose right child is numbered one above it |
| Split.SplitOrdered | src/huffman/AdaptiveHuffmanModel.java:149-170 | splitting the NYT keeps weights non-decreasing in node number |
| Split.SplitSums | src/huffman/AdaptiveHuffmanModel.java:149-170 | after the split every internal weight is its children's sum, except at the old NYT's parent, which still lacks the new one |
| Model.AdaptiveHuffmanModel.FindMaximumNodeInBlock | src/huffman/AdaptiveHuffmanModel.java:177-195 | the result is MaxInBlock over all non-root nodes of the weight |
| Model.AdaptiveHuffmanModel.FindMaximumLeafInBlock | src/huffman/AdaptiveHuffmanModel.java:202-220 | the result is MaxInBlock over non-root leaves of the weight |
| Climbing.MaxInBlock | src/huffman/AdaptiveHuffmanModel.java:177-220 | a found node is a candidate (not the root, the weight, a leaf if asked) numbered at least every candidate; None only when there is no candidate |
| Climbing.MaxInBlockIsTop | src/huffman/AdaptiveHuffmanModel.java:177-220 | in a tree of distinct numbers, the top candidate is exactly what the search returns |
| Model.AdaptiveHuffmanModel.SwapNodes | src/huffman/AdaptiveHuffmanModel.java:227-251 | detaching both, reattaching each in the other's slot and trading numbers yields Restructure.Swapped |
| Restructure.Swapped | src/huffman/AdaptiveHuffmanModel.java:227-251 | the node list after swapNodes: same length, each node as SwappedNode gives it (slots holding a or b exchanged, a and b trade parents and numbers) |
| Restructure.SwappedNumbers | src/huffman/AdaptiveHuffmanModel.java:227-251 | after a swap the node numbers are those of the partner index, while every weight and every leaf/internal status stays with its node |
| Restructure.SwapKeepsStruct | src/huffman/AdaptiveHuffmanModel.java:227-251 | a swap of two non-root nodes, neither the other's parent, keeps a numbered strict binary tree |
| Restructure.SwapKeepsSums | src/huffman/AdaptiveHuffmanModel.java:227-251 | swapping two nodes of equal weight keeps every children's-sum equation |
| Restructure.SwapKeepsOrdered | src/huffman/AdaptiveHuffmanModel.java:227-251 | swapping two nodes of equal weight keeps weights non-decreasing in node number |
| Restructure.SwapKeepsNyt | src/huffman/AdaptiveHuffmanModel.java:227-251 | a swap away from the NYT and its parent keeps the NYT's shape |
| Model.ChildSides | src/huffman/Node.java:114-128 | in a well-formed tree the root is neither a left nor a right child, and every other node is exactly one of them |
| TreeShape.LeafIffChildless | src/huffman/Node.java:130-133 | in a linked strict binary tree a node is a leaf exactly when no node names it as parent; an internal node's two children point back at it |
| Model.AdaptiveHuffmanModel.GetCode | src/huffman/AdaptiveHuffmanModel.java:258-283 | the loop's code pair is Coding.GetCode's |
| Model.AdaptiveHuffmanModel.ClimbToRoot | src/huffman/AdaptiveHuffmanModel.java:272-280 | climbing from n with code d yields the path from the root to n followed by d's bits |
| Coding.GetCode | src/huffman/AdaptiveHuffmanModel.java:258-283 | None exactly for a character neither transmitted nor in the alphabet; a seen character's code is the path to its leaf; a new one's is the path to the NYT and then its default code; the code fits its length |
| Coding.PathTo | src/huffman/AdaptiveHuffmanModel.java:272-280 | the branch bits from the root to n, one per level: empty exactly for the root, and no longer than the drop in node number from the root to n |
| Coding.LeafPathsPrefixFree | src/huffman/AdaptiveHuffmanModel.java:272-280 | no leaf's path is a prefix of another leaf's path |
| Coding.DescendPath | src/huffman/AdaptiveHuffmanModel.java:355-360 | descending from the root along a node's path reaches that node, whatever follows |
| Coding.Descend | src/huffman/AdaptiveHuffmanModel.java:355-360 | descending stops at a leaf, using no more bits than given and at least one from an internal node |
| DefaultCode.GetDefaultCode | src/huffman/AdaptiveHuffmanModel.java:291-311 | None exactly for a character outside the alphabet; otherwise e+1 bits exactly when the index is below 2r, else e bits, and the code fits its length |
| DefaultCode.DefaultCodeRoundTrip | src/huffman/AdaptiveHuffmanModel.java:300-309 | reading a default code back, as decode does, gives the index and its length, whatever bits follow |
| DefaultCode.DefaultCodePrefixFree | src/huffman/AdaptiveHuffmanModel.java:300-309 | no default code is a prefix of another letter's |
| DefaultCode.ReadDefaultInRange | src/huffman/AdaptiveHuffmanModel.java:334-342 | an index read as a default code is always a valid alphabet position |
| Model.AdaptiveHuffmanModel.EncodeChar | src/huffman/AdaptiveHuffmanModel.java:381-383 | one turn of encode: writes Codec.EncodeSymbol's bits and leaves its model; on rejection nothing changes |
| Codec.EncodeSymbol | src/huffman/AdaptiveHuffmanModel.java:381-383 | None exactly for a character outside the alphabet; otherwise the model after the step is the update by that character and stays in use |
| Model.AdaptiveHuffmanModel.Encode | src/huffman/AdaptiveHuffmanModel.java:373-393 | the bits written and the final model are Codec.Encode's |
| Codec.Encode | src/huffman/AdaptiveHuffmanModel.java:373-393 | the output is a whole number of bytes and the model stays in use |
| Codec.EncodeDefined | src/huffman/AdaptiveHuffmanModel.java:373-393 | encoding succeeds exactly when every input character is a letter of the alphabet |
| Model.AdaptiveHuffmanModel.Decode | src/huffman/AdaptiveHuffmanModel.java:319-365 | the characters output and the final model are Codec.Decode's |
| Codec.Decode | src/huffman/AdaptiveHuffmanModel.java:319-365 | the model stays in use and the output never contains the end-of-input letter |
| Codec.DecodeSymbol | src/huffman/AdaptiveHuffmanModel.java:324-346 | a decoded character is a letter, read within the bits given, using at least one bit once the root is internal |
| Model.AdaptiveHuffmanModel.ReadStep | src/huffman/AdaptiveHuffmanModel.java:355-360 | -1 exactly at the end of the bits (and then decoding from the last root stops with nothing more); otherwise the bit read and the child it leads to |
| Model.AdaptiveHuffmanModel.DecodeLeaf | src/huffman/AdaptiveHuffmanModel.java:329-353 | at a leaf: stop on the end-of-input letter or on exhausted bits, else output the character, update the model, and the rest decodes as Codec.Decode |
| Model.AdaptiveHuffmanModel.ResolveSymbol | src/huffman/AdaptiveHuffmanModel.java:331-345 | the character at a leaf and the bits used are Codec.Resolve's |
| Model.AdaptiveHuffmanModel.ReadIndex | src/huffman/AdaptiveHuffmanModel.java:334-340 | reads e bits and, for a value below r, one more: the index and bit count are DefaultCode.ReadDefault's |
| Codec.Resolve | src/huffman/AdaptiveHuffmanModel.java:331-345 | a known leaf resolves to its character using no bits; the NYT resolves to a letter read as a default code from the following bits |
| Codec.LeafGo | src/huffman/AdaptiveHuffmanModel.java:347-352 | a resolved character other than end-of-input is a letter; its update succeeds, and the stream decodes as that character followed by the rest under the updated model |
| Codec.LeafStop | src/huffman/AdaptiveHuffmanModel.java:347-348 | the end-of-input letter, or bits running out, ends decoding with nothing output and the model unchanged |
| Codec.DecodeEncodeSymbol | src/huffman/AdaptiveHuffmanModel.java:319-393 | decoding a character's code under the same model gives back that character and the code's exact length, whatever follows |
| Codec.DecodeEncodeAll | src/huffman/AdaptiveHuffmanModel.java:319-393 | decoding the codes of a run of letters followed by end-of-input gives back the run and the model the encoder had before end-of-input, whatever follows |
| Codec.RoundTrip | src/huffman/AdaptiveHuffmanModel.java:319-393 | for any model in use and any input of letters without the end-of-input letter, decode(encode(input)) is the input, and the decoder ends with the model the encoder had before it coded end-of-input |
| Codec.EncodeAllSnoc | src/huffman/AdaptiveHuffmanModel.java:379-389 | encode's loop over a run and one more letter writes the run's bits, then that letter's code from the model the run left, and ends with that letter's update |
| Codec.EncoderAhead | src/huffman/AdaptiveHuffmanModel.java:387-389 | after a round trip, updating the decoder's final model with end-of-input gives exactly the encoder's final model: the encoder updates with end-of-input and the decoder stops before doing so |
| Codec.FreshRoundTrip | src/huffman/AdaptiveHuffmanModel.java:58-89 | two freshly built models over one distinct alphabet: the decoder recovers exactly the encoder's input |
| Nodes.Arena.constructor | src/huffman/AdaptiveHuffmanModel.java:87 | a new node list is empty |
| Nodes.Arena.NewNode | src/huffman/Node.java:20-27 | the new node has no parent or children, weight 0 and the given number, appended at the end |
| Nodes.Arena.SetLeft | src/huffman/Node.java:34-41 | refused (false, nothing changes) exactly when the candidate has a parent; otherwise it fills the left slot and points back at the parent |
| Nodes.Arena.SetRight | src/huffman/Node.java:48-55 | refused (false, nothing changes) exactly when the candidate has a parent; otherwise it fills the right slot and points back at the parent |
| Nodes.Arena.IncrementWeight | src/huffman/Node.java:67-70 | only the node's weight changes, by one |
| Nodes.Arena.SetNodeNumber | src/huffman/Node.java:77-80 | only the node's number changes |
| Nodes.Arena.DetachLeft | src/huffman/Node.java:87-93 | the left slot is emptied, the former child loses its parent and is returned |
| Nodes.Arena.DetachRight | src/huffman/Node.java:95-101 | the right slot is emptied, the former child loses its parent and is returned |
| Nodes.Arena.DetachFromParent | src/huffman/Node.java:103-112 | a parentless node is left alone; otherwise the parent's slot holding it is emptied and it loses its parent |

## Left out

- The bit streams and the character streams are not part of this model: bits are a
  `seq<bool>`, and input and output characters are a `seq<char>`.
  - Closing the output pads it with zero bits to whole bytes (`Bits.Padded`).
  - Reading at the end of the bits gives -1.
  - The `bitstreams` package is not part of this model. The model assumes that `write` and
    `read` put the most significant bit of a code first.
- `Application.java` is not part of this model. It is the command-line driver.
- Floating point is not modelled. The constructor's `Math.log`/`Math.pow` are replaced by
  the exact `DefaultCode.Log2Floor`.
- Hashing is not modelled. The three hash maps are Dafny maps.
- Codec.MakeAlphabet, Model.AdaptiveHuffmanModel.Encode and Model.AdaptiveHuffmanModel.Decode:
  characters are Unicode scalar values, up to U+10FFFF and without surrogates. The source's
  `char` is a UTF-16 code unit, so an alphabet or input holding a lone surrogate cannot be
  stated here. A supplementary character, which the source reads and codes as two code
  units, is a single symbol here.
- Climbing.Step, Climbing.Climb, Split.SplitTree and Restructure.Swapped: their own
  contracts give only the size and the node-by-node form of the result. What they keep is
  proved in separate lemmas: Climbing.StepKeepsClimb, Climbing.ClimbKeeps, the Split lemmas
  and the Restructure lemmas. Those facts in the functions' own ensures would be paid at
  every use.
- Object references are not modelled. Nodes are arena indices, and so are the keys of
  `charByNode`.
- getRoot, setWeight and the no-argument Node constructor are not modelled: update, encode
  and decode never use them.
- Exceptions are not modelled. Where the source throws, the model returns `None` or
  `false` instead:
  - a character outside the alphabet;
  - a child slot candidate that already has a parent.
- Nodes.Arena.IncrementWeight and ModelState.CountsAreOccurrences: weights are unbounded
  here. The source's `int weight` (Node.java:8, 69) wraps after 2^31 - 1 increments, and the
  root is incremented on every update, so from 2^31 characters through one model the root's
  Java weight is no longer the run's length. update compares weights only with `==`
  (AdaptiveHuffmanModel.java:184-186, 209-211), and two weights between 0 and the run's
  length are equal exactly when their 32-bit values are, so the tree and the codes agree
  with the source while fewer than 2^32 characters have gone through one model.
- Model.AdaptiveHuffmanModel.GetCode: the code is an unbounded integer, and the bit set by
  `1 << length` is added rather than or-ed in. The source's 32-bit `int` would wrap once a
  code is 32 bits or longer.
- Model.AdaptiveHuffmanModel.ClimbToRoot: the same unbounded code as GetCode, with no 32-bit
  wrap-around.
- Model.AdaptiveHuffmanModel.Encode: the character U+FFFF, which the source's read loop
  takes for the end of its input, is treated as an ordinary character.
- Model.AdaptiveHuffmanModel.Encode: when a character is rejected part way through, the model
  already updated by the earlier characters is only stated to be valid. The source has by
  then written and updated them, and then throws.
- Model.AdaptiveHuffmanModel.Decode: bits that run out inside a default code end decoding.
  The source would read -1 there and index the alphabet with it.
- Model.AdaptiveHuffmanModel.constructor: the model is valid only for a non-empty alphabet
  of distinct letters. A repeated letter leaves the index map pointing at its last position,
  as the source's does, but no property is proved for such an alphabet.
- Nodes.Arena.SetLeft and Nodes.Arena.SetRight require the slot to be empty. The source
  overwrites an occupied slot without clearing the old child's parent. Update never does
  that.
- Nodes.Arena.DetachLeft and Nodes.Arena.DetachRight require the slot to be occupied. The
  source fails on an empty one.
- Nodes.Arena.DetachFromParent requires the parent to hold the node in one of its slots,
  as it always does in the model's tree.
- Helper methods: update's parts before and inside its loop are split into:
  - StartUpdate, ClimbFrom, ClimbStep and SwapAndIncrement;
  - decode's leaf and bit steps, into DecodeLeaf, ReadStep, ResolveSymbol and ReadIndex;
  - encode's per-character turn, into EncodeChar.
