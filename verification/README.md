# ADL tools: a model of the encoder, the decoder generator and their neighbours

ADL turns the description of a processor into an assembler, a disassembler and a simulator.  This
project models the algorithms of that translation whose correctness is not visible in any single
function, and proves what they promise each other.

The model follows the source file by file.

- `Basics.dfy`, `Words.dfy`: what the other files share; machine words as bit sequences whose bit 0 is the most
  significant one, with their reading as numbers.
- `BitFields.dfy`: instruction fields as lists of bit ranges in either numbering, scattering a value over them,
  masks, gathering, normalisation of ranges.
- `Opcodes.dfy`, `SplitOpcodes.dfy`: the overlap check, the assembled opcode word, the reserved mask, opcodes given
  in pieces.
- `Encoder.dfy`: the automatic encoder, which hands out opcodes and lays out all operands in one common width.
- `DecodeTree.dfy`, `DecodeEmit.dfy`, `DecodePrefix.dfy`, `DecodeFinalise.dfy`: decode tables, the switches that are
  emitted for them with a small semantics for the emitted statements, the code that puts prefix bits in front, and the
  final merging of tables.
- `DecodeBuild.dfy`: building a decode table from opcodes that can be told apart word by word.
- `Syntax.dfy`, `FixedValues.dfy`: the compiler of assembly syntax strings and the rewriting that puts fixed values
  into them.
- `CrossProduct.dfy`, `Transfer.dfy`: expansion of instructions over sub-instruction groups, and inlining of
  sub-instructions.
- `Pipeline.dfy`: the three-stage loop of the test driver and the sequential loop.
- `Enums.dfy`: enumerators and constant folding.
- `AsmBounds.dfy`, `Immediates.dfy`: the assembler's operand bounds, and the classes of equivalent immediate
  instructions.
- `Caches.dfy`: cache hierarchies.

## Main results

- **Automatic encoding is uniquely decodable** (`Encoder.UniquelyDecodable`): opcodes are distinct and fit, all ranges
  are disjoint and inside the word in both numberings, and the word gives back the opcode and every operand.  It holds
  of every instruction with operands to place that is neither a pseudo instruction nor known to the assembler only
  (`Encoder.OrdinaryDecodable`).
- **Emitted decode code refines table lookup** (`DecodePrefix.PrefixedDecodeRefines`, `DecodePrefix.DirectDecodeRefines`,
  `DecodeFinalise.FinalisedPrefixedCodeRefines`): the outcome is that of the lookup, no word outside the array is
  touched, every switch reads a completed word, and no switch has duplicate labels.
- **From opcodes to the emitted decoder** (`DecodeBuild.DecoderSelects`, `DecodeBuild.PrefixedDecoderSelects`): where a
  table is built without conflict handling, finished and emitted, the code enters an instruction if and only if the
  stream starts with its opcode, and no stream starts with the opcodes of two.
- **The pipeline refines the sequential loop** on every stream in which no packet reads a register
  its immediate predecessor sets and the two skip tests agree (`Pipeline.PipelineRefinesSequential`).
- **Inlining of sub-instructions ends exactly when** an ordered walk through the references does not come back into a
  sub-instruction it has not left, and then gives the in-order inlining or the block error (`Transfer.EndsIff`,
  `Transfer.Instr.TransferFields`).

Two conditions that the code enforces are proved to be the exact ones.

- A switch on one word decides what the full-width mask decides if and only if the mask is confined to one word; wider
  masks are refused (fe/InstrTable.C:363 and 1110).
- A split opcode keeps its pieces if and only if the joined value fits 64 bits; wider fields are refused
  (fe/Data.C:6451-6456), so that every accepted one keeps them (`SplitOpcodes.NarrowOpcodeKeepsPieces`).

Where the code falls short of what one would expect, the exact condition is proved.

- With prefix bits, all bits of an instruction are there on entry if and only if its fetch width is covered by the words
  fetched on the way, or its remainder by 32 is zero or more than the prefix bits: the generator takes the prefix bits
  off a fetch width that does not include them.  An instruction of 48 bits, 8 of them prefix bits, misses its last 8.
- Every operand of a syntax string keeps a marker of its own if and only if the string has at most 128 `%f` and `%p`.
- A compiled syntax string prints back unchanged if and only if it has neither `%i` nor `%%`.
- As many names are synthesised as there are combinations if and only if there is a group, and the first group is empty
  or none is.
- The pipelined loop and the sequential loop use different tests for skipping execution: the first asks for any
  exception of the packet, the second for a change during the operand read.  They decide differently exactly when a
  packet is fetched with an exception already set and its operand read leaves the exception state as it was.
- The table of an expansion keeps all its instructions if and only if their names are distinct; member names without
  underscore make them so, and with underscores two combinations can share a name.
- Constant folding divides by zero if and only if some division, reached through operators and bound names, has constant
  operands of which the right one is zero: even where the expression has a value, as `0 && 1/0` has.
- With bits numbered from the right, the test that nested bits stay inside the outer field rejects nothing.  Accepted
  ranges fit if and only if bits are numbered from the left or every left index is below the outer width.
- The items carried along with a rewritten syntax string are those it has markers for if and only if no constant belongs
  to a field that is both enumerated and constrained.
- Constant folding reaches a leaf if and only if every operator has a case in the evaluator, which has none for shifts.
- Assembler bounds agree with decoded values if and only if the offset is a multiple of the shift's power of two
  (unsigned fields), or there is neither an offset nor an unsigned upper bound (signed fields).

## Model

| member | source | states |
|---|---|---|
| `BitFields.SetValue` | fe/Data.C:6138-6158 | The loop that consumes the value from the right scatters the low bits of the value over the field's bits, first range first; both numberings, and a first range as wide as the value. |
| `BitFields.NarrowShiftable` | fe/Data.C:6451-6456 | Every field of at most 64 bits, which is all that are accepted, can be scattered by the loop. |
| `BitFields.ComputeMask` | fe/Data.C:6187-6200 | The double shifts give exactly the bits the ranges name. |
| `BitFields.FieldRangeBits` | asm/GenAsm.C:2955-2971 | One range is appended to the right of what was read, for either setting of the endianness flag. |
| `BitFields.FieldBits` | asm/GenAsm.C:2973-2980 | Reading all ranges concatenates them, in the width of the word. |
| `BitFields.ReadInOrder` | asm/GenAsm.C:2955-2980 | For ranges written in order the flag does not matter: the field's own bits are gathered in order. |
| `BitFields.ReadReversed` | asm/GenAsm.C:2955-2971 | A range written against the numbering is read turned round with the flag set, and as one of the other numbering without it. |
| `BitFields.FieldValueIs` | asm/GenAsm.C:2973-2980 | The result, as wide as the word, loses none of the bits read: distinct bits of a word are at most as many as the word has. |
| `BitFields.SplitFieldRoundTrip` | fe/Data.C:6138-6158 | What reading a field of a scattered value returns, in a result as wide as the word, is the value modulo two to the field's width, for any list of distinct bits in any word. |
| `BitFields.FieldWordWithinMask` | fe/Data.C:6187-6200 | A scattered value has no bit outside the mask. |
| `BitFields.AllOnesIsMask` | fe/Data.C:6187-6200 | Scattering n ones gives the mask if and only if the field is at most n bits wide. |
| `BitFields.CheckBits` | fe/Data.C:6468-6487 | Accepts exactly the lists without intersecting ranges whose ranges pass the source's width test, and sums their widths. |
| `BitFields.InsideFromRight` | fe/Data.C:6480-6482 | With bits numbered from the right the width test rejects no range. |
| `BitFields.InsideFromLeft` | fe/Data.C:6480-6482 | With bits numbered from the left the test looks at both ends, and without an outer field at none. |
| `BitFields.InsideFitsIff` | fe/Data.C:6480-6482 | Ordered ranges that pass the test fit the outer field if and only if bits are numbered from the left or every left index is below its width. |
| `BitFields.InsideYetNot` | fe/Data.C:6480-6482 | Bits 9 to 8, numbered from the right, pass for an outer field of 8 bits. |
| `BitFields.ApartIffDistinct` | fe/Data.C:5601-5616 | Ranges that do not intersect pairwise are exactly those that name every bit at most once. |
| `BitFields.CheckOrder` | fe/Data.C:5627-5640 | Accepts exactly the lists whose ranges are written in the order of the numbering. |
| `BitFields.OrderedLaws` | fe/Data.C:5627-5640 | A range or its reverse is in order, both only for a single bit, and the numberings are opposite. |
| `BitFields.Normalise` | fe/Data.C:5396-5433 | Rejects misordered ranges; otherwise keeps the bits in order and leaves no two neighbouring ranges adjacent. |
| `BitFields.NormaliseKeepsMeaning` | fe/Data.C:5396-5433 | Lists that name the same bits in order give the same positions, width, mask, scattered words and read values, and fit the same words. |
| `BitFields.NormalFormUnique` | fe/Data.C:5396-5433 | Two normal lists of the same bits are equal, so normalising again changes nothing. |
| `Opcodes.MarkBits` | fe/Data.C:8799-8804 | Setting a field's bits one at a time gives its mask. |
| `Opcodes.HighestBit` | fe/Data.C:8787-8793 | The checking width comes from the highest bit any field names. |
| `Opcodes.HighBitAttained` | fe/Data.C:8787-8793 | The highest bit is an end of one of the ranges, and no range goes beyond it. |
| `Opcodes.HighBitAllAttained` | fe/Data.C:8787-8793 | The highest bit of all fields is that of one of them. |
| `Opcodes.CheckOverlap` | fe/Data.C:8787-8810 | Accepts if and only if no two fields, overlays aside, name the same bit. |
| `Opcodes.DisjointAtWidth` | fe/Data.C:8787-8810 | Disjointness does not depend on the word's width or the numbering. |
| `Opcodes.ApartFields` | fe/Data.C:8787-8810 | Accepted fields are disjoint at every width. |
| `Opcodes.GetOpcode` | fe/Data.C:11098-11108 | The loop assembles the union of the scattered pieces. |
| `Opcodes.ReadBack` | fe/Data.C:11098-11108 | A piece that shares no bit with the others reads back its value, modulo its width, in the result of the reader. |
| `Opcodes.AcceptedFieldsReadBack` | fe/Data.C:8787-8810 | Every opcode field of an instruction that passes the overlap check reads back its own value, at every width that holds it. |
| `Opcodes.GetReservedMask` | fe/Data.C:11119-11141 | A bit of the reserved mask is set exactly when no non-reserved field names it. |
| `Opcodes.OpcodeClearOfReserved` | fe/Data.C:11082-11141 | An assembled word never sets a reserved bit. |
| `SplitOpcodes.Sort` | fe/Data.C:8372-8390 | The exchange sort leaves a sorted permutation, in place. |
| `SplitOpcodes.SortedMeans` | fe/Data.C:8372-8390 | In order means that the left bits of the chosen ranges go up, or down with bits numbered from the right. |
| `SplitOpcodes.CheckSplitValueMeans` | fe/Data.C:8550-8558 | The logarithm test accepts exactly the values that fit their range. |
| `SplitOpcodes.GetSplitValue` | fe/Data.C:8560-8569 | Shifting and or-ing joins the pieces, in the 64 bits of the result. |
| `SplitOpcodes.JoinedIsSeparate` | fe/Data.C:8646-8662 | Scattering the joined bits over the source ranges puts every piece on its own range. |
| `SplitOpcodes.SplitOpcodeKeepsPieces` | fe/Data.C:8646-8662 | Scattering the joined 64-bit value equals placing the pieces separately if and only if the joined value fits. |
| `SplitOpcodes.NarrowOpcodeKeepsPieces` | fe/Data.C:6451-6456 | Fields of at most 64 bits keep all their pieces. |
| `SplitOpcodes.PieceReadsBack` | fe/Data.C:8646-8662 | Each piece's own value is read from its own bits. |
| `Encoder.ComputeFieldsWidth` | fe/Data.C:9538-9559 | Sums the widths of the distinct operand names; fails exactly on an unknown name. |
| `Encoder.CommonWidth` | fe/Data.C:2842-2850 | The common width is the maximum over all instructions, nested ones included. |
| `Encoder.ChooseWidth` | fe/Data.C:2842-2855 | After adding the opcode and rounding up to bytes every instruction has room. |
| `Encoder.LayOut` | fe/Data.C:9446-9482 | The running left and right bits place the opcode and then each distinct operand side by side, from the left in both numberings. |
| `Encoder.Instr.Encode` | fe/Data.C:9439-9497 | Skipped, encoded and unsupported instructions; the opcode counter moves exactly for encoded ones; new field list and width. |
| `Encoder.Instr.EncodeAs` | fe/Data.C:2861-2866 | Nested instructions are marked and then encoded alike. |
| `Encoder.HandOut` | fe/Data.C:2857-2867 | The opcode loop succeeds exactly when all instructions are supported, and leaves each in its encoded state. |
| `Encoder.EncodeInstrs` | fe/Data.C:2828-2868 | The whole run: success exactly when all names are known and all instructions supported, and every final state. |
| `Encoder.OpcodesDistinct` | fe/Data.C:2841-2867 | Opcodes increase strictly and fit the opcode field. |
| `Encoder.OpcodeFits` | fe/Data.C:2841 | The logarithm leaves enough bits for the last opcode. |
| `Encoder.WidthHasRoom` | fe/Data.C:2842-2855 | The chosen width holds opcode and operands of every instruction. |
| `Encoder.PiecesDisjoint` | fe/Data.C:9446-9482 | The ranges of a layout are pairwise disjoint and inside the word, in both numberings. |
| `Encoder.PieceDecodes` | fe/Data.C:9446-9482 | Any piece of an encoded word reads back what was put there, modulo its width. |
| `Encoder.LayoutDecodes` | fe/Data.C:9446-9482 | Opcode and all operands of a layout read back. |
| `Encoder.UniquelyDecodable` | fe/Data.C:2828-2868 | In the final state of the run each encoded instruction owns its opcode, and its words decode to that opcode and to all operand values. |
| `Encoder.OrdinaryDecodable` | fe/Data.C:9439-9482 | Stated on the descriptions: each instruction with operands to place that is neither pseudo nor assembler-only gets the common width, an opcode that fits, and decodes. |
| `Encoder.OrdinaryApart` | fe/Data.C:2857-2867 | Of two such instructions the later has the larger opcode. |
| `Encoder.FirstOpcode` | fe/Data.C:2857-2867 | The first opcode is 1. |
| `Encoder.NextOpcode` | fe/Data.C:2857-2867 | No number is left out between two opcodes. |
| `Encoder.OthersKept` | fe/Data.C:9441-9445 | All other instructions keep their entries and their width. |
| `Encoder.RefusedIff` | fe/Data.C:9484-9495 | Unsupported are exactly the ordinary instructions with nothing to place and a field that is not pseudo. |
| `Encoder.UnknownIff` | fe/Data.C:9538-9559 | A field is unknown if and only if an instruction that is not pseudo mentions an undeclared name. |
| `Encoder.NamesMentioned` | fe/Data.C:9464-9480 | The operands are exactly the names mentioned. |
| `Encoder.NamesInOrder` | fe/Data.C:9464-9480 | Each once, in the order of first mention. |
| `Encoder.WidthIsTight` | fe/Data.C:2842-2855 | The common width is in whole bytes and less than a byte more than some instruction needs. |
| `Encoder.OpcodeSizeTight` | fe/Data.C:2841 | One bit less would not hold one more than the number of instructions. |
| `Encoder.PiecesAdjacent` | fe/Data.C:9446-9482 | The ranges of a layout follow one another without a gap. |
| `Encoder.FlatConcat` | fe/Data.C:2857-2867 | Instructions are taken in the order given. |
| `Encoder.FlatOne` | fe/Data.C:2857-2867 | Each is followed by its nested ones, and only these count as nested. |
| `DecodeEmit.GetIndex` | asm/GenAsm.C:340-352 | The loop finds the last word in which the mask has bits. |
| `DecodeEmit.GetSubmask` | asm/GenAsm.C:329-338 | The loop gives the mask's bits in that word. |
| `DecodeEmit.RequiredFetch` | fe/DecodeSupport.C:197-206 | The number of words up to the last one the mask tests. |
| `DecodeEmit.RequiredMeans` | fe/DecodeSupport.C:197-206 | The words after them are clear in the mask, and the last of them is not. |
| `DecodeEmit.CaseIsKey` | asm/GenAsm.C:1629-1637 | With a one-word mask the case label matches exactly when the full-width masked word is the key. |
| `DecodeEmit.SwitchExactIffOneWord` | asm/GenAsm.C:1629-1637 | A single-word switch decides every instruction word as the full-width key does if and only if the mask is confined to one word. |
| `DecodeEmit.WriteAdditionalFetch` | asm/GenAsm.C:1592-1610 | Which funnel statements are emitted, and the fetch index afterwards. |
| `DecodeEmit.FunnelStep` | asm/GenAsm.C:1602-1604 | One funnel step completes one more word of prefix bits followed by the stream, and leaves only the leading bits in the next. |
| `DecodeEmit.FunnelsRun` | asm/GenAsm.C:1601-1606 | Fetching up to a word completes exactly the words up to it. |
| `DecodeEmit.EmitRefines` | asm/GenAsm.C:1619-1672 | From any state with the funnel invariant, the code for any well-formed table comes to the leaf, default or miss of the lookup; a run in which a switch reads an incomplete word or any word outside the array is touched is excluded; and the funnel invariant holds at the end for the words fetched on that path. |
| `DecodeEmit.EmitInStep` | asm/GenAsm.C:1601-1606 | On every path each funnel step takes the fetched word of its own number: the fetch index is the number of words fetched. |
| `DecodeEmit.EntryBits` | asm/GenAsm.C:1655 | On entry all bits of the instruction, prefix bits included, can be read if they are all fetched; else not where the first missing bit is set. |
| `DecodeEmit.EntryBitsIff` | fe/DecodeSupport.C:208-211 | Every bit of an instruction can be read on entry, whatever the stream, if and only if its fetch width is within the words fetched so far, a multiple of 32, or has a remainder by 32 above the prefix bits. |
| `DecodeEmit.EmitNoDuplicateTags` | asm/GenAsm.C:1632-1639 | No emitted switch has the same case label twice. |
| `DecodePrefix.EncodingShift` | fe/DecodeSupport.C:32-54 | One past the highest prefix bit, or the bits above the highest ordinary one. |
| `DecodePrefix.TopBitAttained` | fe/DecodeSupport.C:32-54 | The highest bit is that of a known field of the kind asked for, or 0. |
| `DecodePrefix.ShiftFromLeft` | fe/DecodeSupport.C:49-54 | Numbered from the left the shift is one more than the highest prefix bit. |
| `DecodePrefix.ShiftFromRight` | fe/DecodeSupport.C:49-54 | Numbered from the right it is the number of bits above the highest ordinary one. |
| `DecodePrefix.ShiftOfNone` | fe/DecodeSupport.C:32-54 | Without such a field bit 0 counts as used. |
| `DecodePrefix.WritePrefixFields` | fe/DecodeSupport.C:94-118 | Statements for the prefix fields with an index and no block, the first an assignment, and the shift, which is 32 without prefix fields. |
| `DecodePrefix.StatementsAre` | fe/DecodeSupport.C:94-118 | Written are exactly the known prefix fields with an index that belong to no block, each with its value and place. |
| `DecodePrefix.FirstAssigns` | fe/DecodeSupport.C:94-118 | The first statement assigns, all others add. |
| `DecodePrefix.WritePrefixCode` | fe/DecodeSupport.C:83-119 | Only the first pseudo instruction is looked at. |
| `DecodePrefix.FirstPseudoIs` | fe/DecodeSupport.C:83-119 | It is the first of the pseudo instructions, and there is none only without any. |
| `DecodePrefix.PrefixShiftMeans` | fe/DecodeSupport.C:83-121 | Without a known prefix field in it the shift is 32, else the encoding shift. |
| `DecodePrefix.ShiftIff` | fe/DecodeSupport.C:114-116 | A field's statement has a large enough shift if and only if the field lies among the prefix bits; with bits numbered from the right, if and only if it is above every ordinary field. |
| `DecodePrefix.ValueInPlace` | fe/DecodeSupport.C:94-118 | Each value that fits its field sits on the bits of its own field, in either numbering. |
| `DecodePrefix.PrefixInStream` | fe/DecodeSupport.C:94-121 | It does so in the stream that is decoded. |
| `DecodePrefix.PrefixOnTop` | fe/DecodeSupport.C:94-118 | Statements with large enough shifts set only the leading bits. |
| `DecodePrefix.PrefixedDecodeRefines` | asm/GenAsm.C:1675-1682 | When the prefix bits are the shift of the emitted prefix code, that code, the first funnel step and the switches decode prefix bits and fetched words as the table lookup does, with the entry bits as above. |
| `DecodePrefix.ShortFetch` | fe/DecodeSupport.C:208-211 | An instruction of 48 bits, 8 of them prefix bits, whose last 8 bits cannot be read on entry. |
| `DecodePrefix.DirectDecodeRefines` | asm/GenAsm.C:1675-1682 | Without prefix bits the switches decode the input words as the table lookup does. |
| `DecodePrefix.PrefixTableDecodes` | fe/DecodeSupport.C:77-82 | A prefix table decodes the first word followed by zeros. |
| `DecodeFinalise.MergeKeepsLookup` | fe/InstrTable.C:1054-1073 | Merging a redundant node keeps what every instruction word decodes to. |
| `DecodeFinalise.MergeKeepsOk` | fe/InstrTable.C:1054-1097 | Merging keeps tables well formed, so it can be repeated. |
| `DecodeFinalise.FinaliseKeepsLookup` | fe/InstrTable.C:1099-1118 | Finalisation ends without the mask error, keeps every lookup and leaves a table ready to emit. |
| `DecodeFinalise.FinalisedCodeRefines` | fe/InstrTable.C:1099-1118 | The code emitted for the finalised table decodes as the built table does. |
| `DecodeFinalise.FinalisedPrefixedCodeRefines` | fe/InstrTable.C:1099-1118 | The same with prefix bits in front. |
| `DecodeBuild.SplitMask` | fe/InstrTable.C:545-559 | The loop of shifts finds the first word of the mask that is not clear. |
| `DecodeBuild.SplitFrom` | fe/InstrTable.C:545-559 | It is confined to one word, lies in the mask, and is clear only if the mask is. |
| `DecodeBuild.GetCommonOpc` | fe/InstrTable.C:324-333 | The bits that are opcode bits of all instructions. |
| `DecodeBuild.NextMaskFresh` | fe/InstrTable.C:767-780 | The bits a node tests belong to every opcode of its group and have not been tested above it; there are none only when nothing common is left. |
| `DecodeBuild.GroupIs` | fe/InstrTable.C:335-346 | A group holds exactly the instructions with the value on the mask. |
| `DecodeBuild.OneFinds` | fe/InstrTable.C:781-801 | The chain for one instruction finds it exactly for the words that have its opcode on the bits not tested yet. |
| `DecodeBuild.BuiltFinds` | fe/InstrTable.C:802-831 | In a built tree, a word with an instruction's opcode is decoded to that instruction. |
| `DecodeBuild.FoundAgrees` | fe/InstrTable.C:802-831 | What is found has its opcode in the word, and everything else is a miss. |
| `DecodeBuild.BuiltOk` | fe/InstrTable.C:562-574 | Built trees test single words and no bit twice, and keys are distinct: what finishing and emitting rely on. |
| `DecodeBuild.InsertsApart` | fe/InstrTable.C:843-918 | Adding instructions one after the other gives every child exactly its own. |
| `DecodeBuild.BuiltFills` | fe/InstrTable.C:852-918 | Adding all instructions to the empty tree succeeds and puts each into the leaf that was made for it. |
| `DecodeBuild.TableIsBuilt` | fe/InstrTable.C:920-938 | The only error is a lone instruction without opcode bits. |
| `DecodeBuild.TableSelects` | fe/InstrTable.C:920-938 | The table decodes a word to an instruction if and only if the word has its opcode, and is well formed. |
| `DecodeBuild.NoOverlap` | fe/InstrTable.C:920-938 | No word has the opcodes of two instructions of such a table. |
| `DecodeBuild.DecoderSelects` | fe/InstrTable.C:1099-1118 | Built, finished and emitted, the decoder enters an instruction if and only if the stream starts with its opcode. |
| `DecodeBuild.PrefixedDecoderSelects` | fe/InstrTable.C:1099-1118 | The same with prefix bits in front. |
| `DecodeBuild.OneFieldBuilds` | fe/InstrTable.C:802-831 | When all opcodes are in the same bits of one word, no conflict has to be handled if and only if they are pairwise different. |
| `Pipeline.NonPipelinedExec` | designs/tdriver.C:466-480 | The sequential loop computes the sequential meaning of the fetch stream. |
| `Pipeline.Cycle` | designs/tdriver.C:434-459 | One iteration commits, executes, reads and fetches, in this order, and counts the packets. |
| `Pipeline.PipelinedExec` | designs/tdriver.C:423-463 | The loop ends with all stages empty, in the delayed state; every packet is read once and committed once, in fetch order. |
| `Pipeline.Iterate` | designs/tdriver.C:432-462 | Every iteration keeps the stages in step and the outstanding packets equal to the occupied stages. |
| `Pipeline.StepForward` | designs/tdriver.C:434-459 | After each iteration the operands of packet k were read with all commits up to packet k - 2. |
| `Pipeline.SkipDecisions` | designs/tdriver.C:444-448 | The two tests for skipping execution agree on a packet if and only if it was fetched without an exception or its operand read changes the exception state. |
| `Pipeline.SkipBreaks` | designs/tdriver.C:444-448 | What both loops do with one packet fetched with an exception set: only the sequential one executes it. |
| `Pipeline.SkipDiffers` | designs/tdriver.C:466-480 | With a handler that sets nothing they then end in different registers. |
| `Pipeline.ReadAcrossCommit` | designs/tdriver.C:408-420 | Reading operands is blind to a commit that sets none of them. |
| `Pipeline.PipelineRefinesSequential` | designs/tdriver.C:423-480 | Both loops end in the same registers on every stream in which no packet reads a register its immediate predecessor sets and the two skip tests agree. |
| `Pipeline.SequentialSlot` | designs/tdriver.C:466-480 | After any stream, a further packet reads what all others left; if reading adds no exception it computes, and its results are set before all its exceptions are handled; else only those are handled. |
| `Pipeline.PipelinedSlot` | designs/tdriver.C:434-459 | The same for the pipeline, which reads what the slots up to the last but one left and computes only without any exception. |
| `Pipeline.ExecutedAlone` | designs/tdriver.C:466-480 | One packet without exceptions so far: both loops set its results and handle what execution raises. |
| `Pipeline.SkippedAlone` | designs/tdriver.C:466-480 | One packet whose reading raises exceptions: both compute nothing and handle those. |
| `Pipeline.HazardBreaks` | designs/tdriver.C:419-422 | Whatever one packet reads and its predecessor sets, if they have a register in common there are instructions with these registers for which the loops end differently. |
| `Syntax.Format.ProcessFormat` | fe/Data.C:7426-7549 | The loop and its flags compile the format or reject it, and set the marker count, the field borders and the name's place; a name that is missing at the end is an error after the text and the count are stored, any other error leaves text and count as they were. |
| `Syntax.Format.Code` | fe/Data.C:7448-7515 | The treatment of each code after a percent sign. |
| `Syntax.Format.Plain` | fe/Data.C:7520-7535 | The treatment of an ordinary character, which opens and closes the name. |
| `Syntax.AcceptedIff` | fe/Data.C:7426-7549 | Accepted are exactly the inputs with the four codes only, no `%p` after a `%f`, items for their codes (even for `%%`) and, where it is asked for, a name that begins before the first `%f`. |
| `Syntax.BordersMean` | fe/Data.C:7505-7512 | The permutable fields are the `%p`; the prefix fields are those in front of the name. |
| `Syntax.SpacesAre` | fe/Data.C:7521 | The characters that end a name. |
| `Syntax.CompiledShape` | fe/Data.C:7426-7549 | Markers occur once each, in increasing order; the borders are in order; the name is contiguous, without space or marker. |
| `Syntax.EveryFieldMarkedIff` | fe/Data.C:7426-7549 | The fields counted are the `%f` and `%p` of the source, and each has a marker of its own if and only if there are at most 128 of them. |
| `Syntax.FieldsLost` | fe/Data.C:7505-7507 | Any format of more than 128 `%f` is accepted and loses markers. |
| `Syntax.CompiledPrints` | fe/Data.C:7353-7367 | Printing the compiled format gives the source with the name and the percent signs resolved; a marker prints as `%p` exactly when it came from one. |
| `Syntax.PrintsBackIff` | fe/Data.C:7353-7367 | The source is printed back if and only if it has neither `%i` nor `%%`. |
| `FixedValues.SearchFixedVals` | fe/Data.C:8005-8036 | Lists the fixed positions with their text, in order; fails exactly on an enumerated field without a matching value. |
| `FixedValues.ListsMeans` | fe/Data.C:8005-8036 | Listed are exactly the items with a value whose field has enumerators or is not constrained. |
| `FixedValues.ShownAs` | fe/Data.C:8012-8030 | They are shown with digits that read back as the value, or the first enumerator of the value. |
| `FixedValues.DecimalReads` | fe/Data.C:8028-8030 | The digits of a number read back as the number, without a zero in front. |
| `FixedValues.FindEnum` | fe/Data.C:8012-8019 | The first enumerator with the value, if there is one. |
| `FixedValues.FindSites` | fe/Data.C:8039-8056 | The places of the fixed markers. |
| `FixedValues.SpliceAll` | fe/Data.C:8057-8064 | The text with the values put in place of their markers. |
| `FixedValues.RenumberAll` | fe/Data.C:8066-8077 | The remaining markers renumbered from the first. |
| `FixedValues.ProcessFixedVals` | fe/Data.C:8039-8079 | All three steps on a format. |
| `FixedValues.SpliceIsSubst` | fe/Data.C:8045-8064 | Splicing at the sites is substituting marker by marker. |
| `FixedValues.RewrittenPrintsSame` | fe/Data.C:8039-8079 | The rewritten format with the remaining items renders as the original with the fixed items replaced. |
| `FixedValues.RenumberedInOrder` | fe/Data.C:8066-8077 | Renumbering a text of at most 128 markers keeps their count and numbers them upwards from the given number. |
| `FixedValues.RewrittenInOrder` | fe/Data.C:8039-8079 | In the rewritten format the markers are numbered 0, 1, 2, and so on, and there is one less for every constant put in. |
| `FixedValues.CarriedIff` | fe/Data.C:8228-8240 | The items carried along are those the rewritten format has markers for if and only if no constant is of a field both enumerated and constrained. |
| `FixedValues.CompiledThenRewritten` | fe/Data.C:8039-8079 | Formats from the syntax compiler can always be rewritten so, and their markers still count up. |
| `CrossProduct.CrossComplete` | fe/Data.C:10066-10129 | The reference product holds exactly the combinations. |
| `CrossProduct.CrossDistinct` | fe/Data.C:10066-10129 | It holds none twice. |
| `CrossProduct.CrossSize` | fe/Data.C:10042-10047 | Their number is the product of the group sizes. |
| `CrossProduct.CountCombos` | fe/Data.C:10042-10047 | The loop computes that number. |
| `CrossProduct.CrossIsChain` | fe/Data.C:10121-10128 | In the product each combination is followed by its odometer successor, from all zeros on. |
| `CrossProduct.Advance` | fe/Data.C:10121-10128 | The nested loops over the reversed iterators move to the successor, in place. |
| `CrossProduct.ComputeSubinstrNames` | fe/Data.C:10008-10034 | The recursive name lists, an empty rest counting as no rest. |
| `CrossProduct.NamesAreCross` | fe/Data.C:10008-10034 | For non-empty groups the k-th name is the label of the k-th combination. |
| `CrossProduct.NamesCountIff` | fe/Data.C:10049-10061 | There are as many names as combinations if and only if there is a group, and the first is empty or none is. |
| `CrossProduct.GenerateAll` | fe/Data.C:10083-10129 | The odometer loop visits every combination once, in order, with the name of its index, leaving out reserved names. |
| `CrossProduct.ExpandSubinstructions` | fe/Data.C:10036-10129 | When the expansion fails, and the table it gives: a given name stands for the combination of its place, a synthesised one, with plain distinct member names, for the combination it spells out. |
| `CrossProduct.ExpandedLabels` | fe/Data.C:10036-10129 | With synthesised names the generated instructions are exactly the combinations under their own labels. |
| `CrossProduct.TableKeepsAllIff` | fe/Data.C:10116-10117 | The table keeps every instruction if and only if their names are distinct. |
| `CrossProduct.TableHolds` | fe/Data.C:10116-10117 | A name stands for the first combination that was given it. |
| `CrossProduct.GivenMaps` | fe/Data.C:10083-10117 | In the table of an expansion a name stands for the combination of the place where it comes first. |
| `CrossProduct.ReservedLeftOut` | fe/Data.C:10083-10117 | Nothing is made for the name "reserved". |
| `CrossProduct.LabelsDistinct` | fe/Data.C:10008-10034 | Without underscores in the member names a label tells its combination. |
| `CrossProduct.ExpansionKeepsAll` | fe/Data.C:10036-10129 | Then an expansion with synthesised names loses none of its instructions. |
| `CrossProduct.ExpansionMaps` | fe/Data.C:10036-10129 | Every combination is then found under its own label. |
| `CrossProduct.LabelsCollide` | fe/Data.C:10008-10034 | With underscores two combinations can have the same label. |
| `Transfer.Instr.Visit` | fe/Data.C:10406-10431 | One step: past an item, the block error, or a replacement and back to the start, which brings the walk one reference on. |
| `Transfer.Instr.TransferFields` | fe/Data.C:10402-10435 | Ends unless the walk is cyclic; succeeds exactly when the walk goes through; then the list is the in-order inlining, tagged by the outermost reference, without references. |
| `Transfer.ReplaceKeeps` | fe/Data.C:10413-10425 | Replacing the first reference keeps how the walk ends and what is inlined, and leaves one reference less to go into. |
| `Transfer.EndsIff` | fe/Data.C:10402-10435 | The loop comes to an end, by itself or by the block error, if and only if the walk does not come back into a sub-instruction it has not left. |
| `Transfer.NeverEnds` | fe/Data.C:10426-10429 | Inside a set of consistent sub-instructions that lead into each other the loop never stops. |
| `Transfer.SelfReference` | fe/Data.C:10409-10412 | A sub-instruction that refers to itself keeps the loop going for ever, or stops it at once when it belongs to another block. |
| `Transfer.AcyclicEnds` | fe/Data.C:10402-10435 | With acyclic references the loop ends on every instruction. |
| `Transfer.FailsIff` | fe/Data.C:10411-10412 | Where the loop ends, it fails if and only if a chain of references leads to a sub-instruction of another block. |
| `Transfer.SameBlockThrough` | fe/Data.C:10411-10412 | Sub-instructions without a block or of the own block are never an error. |
| `Enums.FoldKeepsMeaning` | fe/ExprWalker.h:27-97 | Folding divides by zero exactly on the expressions with a constant zero division in them; on all others it preserves the value and leaves undefined ones undefined. |
| `Enums.AddSubLaws` | fe/Types.h:770-833 | Sum and difference are those of the numbers less or plus one turn of 32 bits, and undo each other. |
| `Enums.MulLaws` | fe/Types.h:770-833 | Multiplication is repeated addition. |
| `Enums.DivModLaws` | fe/Types.h:786-791 | Quotient and remainder. |
| `Enums.BitLaws` | fe/Types.h:770-833 | The bitwise operators work on each bit. |
| `Enums.OrderLaws` | fe/Types.h:770-833 | Comparisons are the order of the numbers and come in converse and complementary pairs. |
| `Enums.EqualLaws` | fe/Types.h:770-833 | Equality is being neither less nor greater, and inequality its negation. |
| `Enums.LogicLaws` | fe/Types.h:825-832 | The logical operators ask which operands are zero. |
| `Enums.SignLaws` | fe/Types.h:839-860 | The sign changes to what adds up to zero. |
| `Enums.FlipLaw` | fe/Types.h:839-860 | The complement changes every bit. |
| `Enums.FoldOutcome` | fe/ExprWalker.h:58-79 | What folding comes to: both sides are translated before the operator is looked at, so a zero division anywhere ends it. |
| `Enums.DividesAnyway` | fe/Types.h:786-791 | `0 && 1/0` has the value 0, and folding it divides by zero. |
| `Enums.FoldLeafIff` | fe/ExprWalker.h:27-97 | Folding ends in a leaf, which is the value, exactly on constants and bound names under the operators of the evaluator without division by zero. |
| `Enums.ShiftStays` | fe/Types.h:770-833 | No shift of constants is folded, though it has a value. |
| `Enums.AdlWalker.TranslateEnumSpec` | fe/AdlWalker.C:56-95 | The loop binds each name to its explicit value, to a count, or to the last explicit value plus a count. |
| `Enums.BoundHasRuleValue` | fe/AdlWalker.C:51-95 | Each bound expression has the value of the enumerator rule (section 6.7.2.2 of ISO/IEC 9899:2011, section 7.2 of ISO/IEC 14882:2014). |
| `Enums.StaysScoped` | fe/AdlWalker.C:56-95 | Declarations that mention only earlier names keep the environment free of cycles, so that folding ends. |
| `Enums.EnumeratorFolds` | fe/ExprWalker.h:82-95 | After a declaration each enumerator name means its rule value; folding it divides by zero, keeps the value, or where foldable ends in the value. |
| `AsmBounds.UnsignedAccepts` | asm/GenAsm.C:2940-2949 | The numbers an unsigned operand's bounds and mask let through. |
| `AsmBounds.SignedAccepts` | asm/GenAsm.C:2930-2949 | The numbers a signed operand's bounds and mask let through. |
| `AsmBounds.UnsignedValue` | asm/GenAsm.C:191-224 | Widening, shifting and adding the offset lose nothing in an unsigned field. |
| `AsmBounds.SignedProducedIff` | asm/GenAsm.C:191-224 | A signed field produces exactly the multiples between its bounds, moved by the offset. |
| `AsmBounds.UnsignedAgreeIff` | asm/GenAsm.C:2924-2949 | Assembler and disassembler agree on an unsigned field if and only if the offset is a multiple of the shift's power of two. |
| `AsmBounds.SignedAgreeIff` | asm/GenAsm.C:2924-2949 | They agree on a signed field if and only if it has neither an offset nor an unsigned upper bound. |
| `Immediates.TakeClass` | asm/GenAsm.C:5142-5161 | The erasing loop splits the rest into one class and what stays, testing against the latest member. |
| `Immediates.ClassesPartition` | asm/GenAsm.C:5134-5168 | For any order and any test the classes are a partition. |
| `Immediates.GenBigMemInfo` | asm/GenAsm.C:5094-5169 | Every instruction ends with the number of the latest member of its class, others with -1. |
| `Immediates.LongestMember` | asm/GenAsm.C:5162-5167 | That number is an immediate instruction's exactly for immediate instructions. |
| `Immediates.LongestFixpoint` | asm/GenAsm.C:5162-5167 | Following it again gives the same number. |
| `Immediates.LongestIsLast` | asm/GenAsm.C:5134-5168 | When the test is an equivalence it is the last equivalent instruction of the order. |
| `Immediates.LongestSameIff` | asm/GenAsm.C:5134-5168 | When the test is an equivalence two instructions get the same number if and only if they are equivalent. |
| `Caches.AddCache` | fe/Data.C:3469-3488 | Each cache goes to the slot of its level in the lists of its type, unified ones into both, in place of what was there; the lists go on sharing their unified caches exactly when none is replaced in one list only. |
| `Caches.AddAll` | fe/Data.C:3043-3054 | Each slot holds the latest cache for it; a cache without a level is an error; with at most one cache per slot the lists share their unified caches. |
| `Caches.CheckCacheHierarchy` | fe/Data.C:3080-3104 | Fails exactly when a split cache is above a unified one, leaves such caches out, and links every other to the next. |
| `Caches.OrderedIff` | fe/Data.C:3080-3104 | A list is in order if and only if above a unified cache there are only unified ones. |
| `Caches.KeptMeans` | fe/Data.C:3080-3104 | Left out of the links are exactly the split caches above a unified one. |
| `Caches.CheckBoth` | fe/Data.C:3055-3056 | Fails exactly when a list is out of order; else, if the lists share their unified caches, every cache of either list points to the next one of it, although unified ones are linked twice. |
| `Caches.ConvergeAbove` | fe/Data.C:3080-3104 | From a unified cache on both lists are the same. |
| `Caches.ChainsConverge` | fe/Data.C:3080-3104 | From a unified cache on both chains have the same next cache. |
| `Caches.CheckShared` | fe/Data.C:1320-1324 | The walk along the links ends and accepts exactly when every later cache is shared. |

## Left out

- OpenC++ parsing, the preprocessor, options, message logging and the texts of error messages.
- Building decode tables where several instructions share their value on the next common bits (conflict masks, partitioning and specialisations in fe/InstrTable.C): for these a well-formed table is taken as given.
- DecodeBuild.BuiltFills: the tree is built and filled on values, not in place; children stand in the order of first occurrence instead of the order of the set, which no lookup sees; default tables and shorthands do not occur.
- DecodeBuild.TableSelects: an instruction set that is not empty; opcode masks and values are given at the table's width, a multiple of 32.
- DecodeFinalise.FinaliseKeepsLookup: finalisation is modelled on values, so the update of a table in place and the sharing of tables are not captured; tables below a default table are left as they are, as in the code.
- Shorthands and the printing of a decoded instruction (`writeDisTableEntry`); only which instruction is reached.
- DecodePrefix.ValueInPlace: a prefix field is one stretch of bits, its value a given word; how the index of a prefix field is found is left out.
- Opcodes.GetOpcode: instructions without an alias and without the word swap of mixed-endian cores.
- Opcodes.GetReservedMask: instructions without an alias and without the mixed-endian shift; the masks are taken at the width asked for.
- BitFields.FieldRangeBits: a range of any width is read, since `getUIntField` of the number class is not part of this model.
- Encoder.EncodeInstrs: the tables of instructions are a given sequence; fields have positive widths.
- Syntax.Format.ProcessFormat: characters above the marker range, which the type of a byte would wrap into it, are shut out where a result needs it.
- SplitOpcodes.GetSplitValue: a piece of exactly 64 bits, for which the source shifts a 64-bit number by 64, is shut out.
- FixedValues.CarriedIff: of `invert_syntax` only the treatment of constants is modelled; all other items count as carried, and inverted expressions with the walkers behind them are left out.
- CrossProduct.ExpandSubinstructions: the number of combinations does not wrap around at 32 bits; modifications by dummy instructions, and the cutting of syntax lists, are not modelled.
- Pipeline.PipelinedExec: fetching is a given stream, so that a branch that changes it is not modelled; memory accesses, breakpoints, logging and time are left out.
- Enums.FoldKeepsMeaning: arithmetic on 32-bit unsigned integers only; conditional expressions, casts and `sizeof` are not modelled.
- Enums.AdlWalker.TranslateEnumSpec: names are bound in a list; nested scopes are not modelled.
- AsmBounds.UnsignedAgreeIff: fields without constraints, with all values within the width of an address.
- AsmBounds.SignedAgreeIff: as for unsigned fields; the bounds are applied as gas applies them, with its low-bit check switched on as it is by default.
- Immediates.GenBigMemInfo: the sorted set is any order of the immediate instructions, and the test for equivalence is any relation; marking modified fields is left out.
- Caches.CheckCacheHierarchy: `Cache::finalize` is left out.
- The cache data movement of designs/tdriver.C, register files, relocations, regular expressions and documentation output.
