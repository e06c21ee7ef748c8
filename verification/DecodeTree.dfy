/**
 The decode table: an m-ary tree whose inner nodes select a child by masking the
 instruction, and whose leaves are instructions.
 */
module DecodeTree {
  import opened Basics
  import opened Words

  datatype Instr = Instr(id: nat, fetchWidth: nat)

  /** A node: mask, children keyed by masked value, default table, instruction. */
  datatype Tree = Tree(mask: Word, kids: Kids, other: Other, instr: Option<Instr>)
  datatype Kids = NoKid | Kid(key: Word, sub: Tree, more: Kids)
  datatype Other = NoTable | Table(t: Tree)

  /** What decoding comes to: an instruction, a decode miss, or neither. */
  datatype Outcome = Found(instr: Instr) | Miss | Nothing

  function AsOutcome(i: Option<Instr>, otherwise: Outcome): Outcome {
    if i.Some? then Found(i.value) else otherwise
  }

  /** Decode by applying the whole mask at every node. */
  function Lookup(t: Tree, w: Word): Outcome
    decreases t
  {
    if t.kids.NoKid? then AsOutcome(t.instr, Nothing)
    else
      var r := LookupIn(t.kids, And(w, t.mask), w);
      if r.Some? then r.value else LookupOther(t, w)
  }

  /** No child matches. */
  function LookupOther(t: Tree, w: Word): Outcome
    decreases t, 0
  {
    match t.other
    case Table(d) => Lookup(d, w)
    case NoTable => AsOutcome(t.instr, Miss)
  }

  function LookupIn(kids: Kids, masked: Word, w: Word): Option<Outcome>
    decreases kids
  {
    match kids
    case NoKid => None
    case Kid(k, sub, more) => if k == masked then Some(Lookup(sub, w)) else LookupIn(more, masked, w)
  }

  function Keys(kids: Kids): set<Word> {
    match kids
    case NoKid => {}
    case Kid(k, _, more) => {k} + Keys(more)
  }

  /** Every key is made of bits of the mask, and no key occurs twice. */
  ghost predicate KeysOk(kids: Kids, mask: Word) {
    match kids
    case NoKid => true
    case Kid(k, _, more) => Within(k, mask) && k !in Keys(more) && KeysOk(more, mask)
  }
}
