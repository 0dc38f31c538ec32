/**
  Flattened devicetrees (Devicetree Specification, section 5.4): trees of nodes and
  properties, their encoding as a structure block with NOP tokens anywhere between items,
  and what searching such a tree means.
 */
module DevicetreeBlob {
  import opened Common

  type Byte = x: nat | x < 256

  const BEGIN_NODE: seq<Byte> := [0, 0, 0, 1]
  const END_NODE: seq<Byte> := [0, 0, 0, 2]
  const PROP: seq<Byte> := [0, 0, 0, 3]
  const NOP: seq<Byte> := [0, 0, 0, 4]
  const END: seq<Byte> := [0, 0, 0, 9]

  const AT: Byte := 0x40

  // ---------------------------------------------------------------- trees

  /** The items of one node, in order: NOP tokens, properties and subnodes. */
  datatype Items =
    | Last
    | Nop(rest: Items)
    | Prop(nameOffset: nat, value: seq<Byte>, rest: Items)
    | Child(name: seq<Byte>, body: Items, rest: Items)

  function Zeros(n: nat): (z: seq<Byte>)
    ensures |z| == n && forall i :: 0 <= i < n ==> z[i] == 0
  {
    seq(n, _ => 0)
  }

  /** Rounds up to a multiple of four. */
  function Align(p: nat): (q: nat)
    ensures p <= q < p + 4 && q % 4 == 0
  {
    (p + 3) / 4 * 4
  }

  function Pad(bytes: seq<Byte>): (r: seq<Byte>)
    ensures |r| == Align(|bytes|)
  {
    bytes + Zeros(Align(|bytes|) - |bytes|)
  }

  function Word(n: nat): (w: seq<Byte>)
    requires n < 0x1_0000_0000
    ensures |w| == 4
  {
    [n / 0x100_0000, n / 0x1_0000 % 0x100, n / 0x100 % 0x100, n % 0x100]
  }

  function FromWord(w: seq<Byte>): nat
    requires |w| == 4
  {
    var a: nat, b: nat, c: nat, d: nat := w[0], w[1], w[2], w[3];
    a * 0x100_0000 + b * 0x1_0000 + c * 0x100 + d
  }

  lemma WordRoundTrip(n: nat)
    requires n < 0x1_0000_0000
    ensures FromWord(Word(n)) == n
  {
    var q := n / 0x100;
    var p := n / 0x1_0000;
    assert n == 0x100 * q + n % 0x100;
    assert p == q / 0x100 && q == 0x100 * p + q % 0x100;
    assert n / 0x100_0000 == p / 0x100 && p == 0x100 * (p / 0x100) + p % 0x100;
  }

  // ---------------------------------------------------------------- encoding

  ghost predicate Encodable(items: Items) {
    match items
    case Last => true
    case Nop(rest) => Encodable(rest)
    case Prop(nameOffset, value, rest) => nameOffset < 0x1_0000_0000 && |value| < 0x1_0000_0000 && Encodable(rest)
    case Child(name, body, rest) => 0 !in name && Encodable(body) && Encodable(rest)
  }

  /** The items of a node up to and with its END_NODE token. */
  ghost function Encode(items: Items): (bytes: seq<Byte>)
    requires Encodable(items)
    decreases items, 0
  {
    match items
    case Last => END_NODE
    case Nop(rest) => NOP + Encode(rest)
    case Prop(nameOffset, value, rest) => PROP + Word(|value|) + Word(nameOffset) + Pad(value) + Encode(rest)
    case Child(name, body, rest) => EncodeNode(name, body) + Encode(rest)
  }

  ghost function EncodeNode(name: seq<Byte>, body: Items): (bytes: seq<Byte>)
    requires Encodable(body)
    decreases body, 1
  {
    BEGIN_NODE + Pad(name + [0]) + Encode(body)
  }

  lemma {:induction false} EncodeAligned(items: Items)
    requires Encodable(items)
    ensures |Encode(items)| % 4 == 0 && |Encode(items)| >= 4
  {
    hide Align, Word;
    match items
    case Last =>
    case Nop(rest) => EncodeAligned(rest);
    case Prop(nameOffset, value, rest) =>
      EncodeAligned(rest);
      Multiples(Align(|value|), |Encode(rest)|, 12);
    case Child(name, body, rest) =>
      EncodeAligned(body);
      EncodeAligned(rest);
      Multiples(Align(|name| + 1), |Encode(body)|, 4);
      Multiples(|EncodeNode(name, body)|, |Encode(rest)|, 0);
  }

  lemma NodeAligned(name: seq<Byte>, body: Items)
    requires Encodable(body)
    ensures |EncodeNode(name, body)| % 4 == 0
  {
    hide Align, Encode;
    EncodeAligned(body);
    Multiples(Align(|name| + 1), |Encode(body)|, 4);
  }

  lemma Multiples(a: nat, b: nat, c: nat)
    requires a % 4 == 0 && b % 4 == 0 && c % 4 == 0
    ensures (a + b + c) % 4 == 0
  {
  }

  ghost function Nops(n: nat): (bytes: seq<Byte>)
    ensures |bytes| == 4 * n
  {
    if n == 0 then [] else NOP + Nops(n - 1)
  }

  /** A structure block: NOPs, the root node, NOPs, the end. */
  ghost function Block(lead: nat, name: seq<Byte>, body: Items, trail: nat): seq<Byte>
    requires Encodable(body)
  {
    Nops(lead) + EncodeNode(name, body) + Nops(trail) + END
  }

  // ---------------------------------------------------------------- meaning

  datatype Cells = Cells(address: nat, size: nat)

  const DEFAULT_CELLS := Cells(2, 1)

  const ADDRESS_CELLS: seq<Byte> := [0x23, 0x61, 0x64, 0x64, 0x72, 0x65, 0x73, 0x73, 0x2D, 0x63, 0x65, 0x6C, 0x6C, 0x73]
  const SIZE_CELLS: seq<Byte> := [0x23, 0x73, 0x69, 0x7A, 0x65, 0x2D, 0x63, 0x65, 0x6C, 0x6C, 0x73]

  /** A byte of memory; past the end of a block it reads as zero. */
  function ByteAt(bytes: seq<Byte>, p: nat): Byte {
    if p < |bytes| then bytes[p] else 0
  }

  /** The NUL-terminated string at `p`. */
  ghost function StringAt(bytes: seq<Byte>, p: nat): seq<Byte>
    decreases |bytes| - p
  {
    if ByteAt(bytes, p) == 0 then [] else [bytes[p]] + StringAt(bytes, p + 1)
  }

  /** What a property says about the cell counts of subnodes. */
  ghost function Declare(strings: seq<Byte>, nameOffset: nat, value: seq<Byte>, cells: Cells): Cells {
    if |value| < 4 then cells
    else if StringAt(strings, nameOffset) == ADDRESS_CELLS then cells.(address := FromWord(value[..4]))
    else if StringAt(strings, nameOffset) == SIZE_CELLS then cells.(size := FromWord(value[..4]))
    else cells
  }

  /** The cell counts a node gives its subnodes: its own declarations over those it inherits. */
  ghost function Declared(strings: seq<Byte>, items: Items, cells: Cells): Cells {
    match items
    case Last => cells
    case Nop(rest) => Declared(strings, rest, cells)
    case Prop(nameOffset, value, rest) => Declared(strings, rest, Declare(strings, nameOffset, value, cells))
    case Child(_, _, rest) => Declared(strings, rest, cells)
  }

  /** The bytes are those of the text. */
  ghost predicate Spells(bytes: seq<Byte>, text: string) {
    |bytes| == |text| && forall i :: 0 <= i < |text| ==> bytes[i] as int == text[i] as int
  }

  lemma CellsSpelled(bytes: seq<Byte>)
    ensures Spells(bytes, "#address-cells") <==> bytes == ADDRESS_CELLS
    ensures Spells(bytes, "#size-cells") <==> bytes == SIZE_CELLS
  {
    var a, b := "#address-cells", "#size-cells";
    assert forall i :: 0 <= i < |a| ==> ADDRESS_CELLS[i] as int == a[i] as int;
    assert forall i :: 0 <= i < |b| ==> SIZE_CELLS[i] as int == b[i] as int;
  }

  /** The number in the last property of that name, or the one inherited. */
  ghost function LastNamed(strings: seq<Byte>, items: Items, text: string, inherited: nat): nat {
    match items
    case Last => inherited
    case Nop(rest) => LastNamed(strings, rest, text, inherited)
    case Prop(nameOffset, value, rest) =>
      var own := |value| >= 4 && Spells(StringAt(strings, nameOffset), text);
      LastNamed(strings, rest, text,
        if own then value[0] * 0x100_0000 + value[1] * 0x1_0000 + value[2] * 0x100 + value[3] else inherited)
    case Child(_, _, rest) => LastNamed(strings, rest, text, inherited)
  }

  /** A node's "#address-cells" and "#size-cells" set the address and the size count of its subnodes. */
  lemma {:induction false} DeclaredIsLast(strings: seq<Byte>, items: Items, cells: Cells)
    ensures Declared(strings, items, cells)
         == Cells(LastNamed(strings, items, "#address-cells", cells.address),
                  LastNamed(strings, items, "#size-cells", cells.size))
  {
    hide Spells, StringAt;
    match items
    case Last =>
    case Nop(rest) => DeclaredIsLast(strings, rest, cells);
    case Prop(nameOffset, value, rest) =>
      CellsSpelled(StringAt(strings, nameOffset));
      DeclaredIsLast(strings, rest, Declare(strings, nameOffset, value, cells));
    case Child(_, _, rest) => DeclaredIsLast(strings, rest, cells);
  }

  ghost predicate NoProps(items: Items) {
    match items
    case Last => true
    case Nop(rest) => NoProps(rest)
    case Prop(_, _, _) => false
    case Child(_, _, rest) => NoProps(rest)
  }

  /** Properties come before subnodes, have known names, and cell counts have their four bytes. */
  ghost predicate WellFormed(strings: seq<Byte>, items: Items) {
    match items
    case Last => true
    case Nop(rest) => WellFormed(strings, rest)
    case Prop(nameOffset, value, rest) =>
      && nameOffset < |strings| && WellFormed(strings, rest)
      && (StringAt(strings, nameOffset) == ADDRESS_CELLS || StringAt(strings, nameOffset) == SIZE_CELLS ==>
          |value| >= 4)
    case Child(_, body, rest) => NoProps(rest) && WellFormed(strings, body) && WellFormed(strings, rest)
  }

  lemma {:induction false} NoPropsDeclared(strings: seq<Byte>, items: Items, cells: Cells)
    requires NoProps(items)
    ensures Declared(strings, items, cells) == cells
  {
    match items
    case Last =>
    case Nop(rest) => NoPropsDeclared(strings, rest, cells);
    case Child(_, _, rest) => NoPropsDeclared(strings, rest, cells);
  }

  /** A node met in a walk: its name, where its items start, and the cell counts that apply to it. */
  datatype Visit = Visit(name: seq<Byte>, address: nat, cells: Cells)

  ghost function BodyAt(name: seq<Byte>, at: nat): nat {
    at + 4 + Align(|name| + 1)
  }

  /** All nodes below, in preorder, with `at` the address of the items and `cells` those given to subnodes. */
  ghost function Visits(strings: seq<Byte>, items: Items, at: nat, cells: Cells): seq<Visit>
    requires Encodable(items)
    decreases items, 0
  {
    match items
    case Last => []
    case Nop(rest) => Visits(strings, rest, at + 4, cells)
    case Prop(_, value, rest) => Visits(strings, rest, at + 12 + Align(|value|), cells)
    case Child(name, body, rest) =>
      VisitsNode(strings, name, body, at, cells) + Visits(strings, rest, at + |EncodeNode(name, body)|, cells)
  }

  ghost function VisitsNode(strings: seq<Byte>, name: seq<Byte>, body: Items, at: nat, cells: Cells): seq<Visit>
    requires Encodable(body)
    decreases body, 1
  {
    [Visit(name, BodyAt(name, at), cells)] + Visits(strings, body, BodyAt(name, at), Declared(strings, body, cells))
  }

  /** The node's name is the wanted one, possibly with a unit address after it. */
  predicate Matches(nodeName: seq<Byte>, name: seq<Byte>) {
    name <= nodeName && (|nodeName| == |name| || nodeName[|name|] == AT)
  }

  ghost function UpToAt(s: seq<Byte>): seq<Byte> {
    if s == [] || s[0] == AT then [] else [s[0]] + UpToAt(s[1..])
  }

  /** For a name without a unit address that means equality up to the '@'. */
  lemma {:induction false} MatchesUpToAt(nodeName: seq<Byte>, name: seq<Byte>)
    requires AT !in name
    ensures Matches(nodeName, name) <==> UpToAt(nodeName) == name
  {
    if nodeName != [] && nodeName[0] != AT && name != [] {
      MatchesUpToAt(nodeName[1..], name[1..]);
      assert name == [name[0]] + name[1..];
    }
  }

  ghost function FirstMatch(visits: seq<Visit>, name: seq<Byte>): Option<Visit> {
    if visits == [] then None
    else if Matches(visits[0].name, name) then Some(visits[0])
    else FirstMatch(visits[1..], name)
  }

  lemma {:induction false} FirstMatchConcat(a: seq<Visit>, b: seq<Visit>, name: seq<Byte>)
    ensures FirstMatch(a + b, name) == if FirstMatch(a, name).Some? then FirstMatch(a, name) else FirstMatch(b, name)
  {
    if a == [] {
      assert a + b == b;
    } else {
      assert (a + b)[1..] == a[1..] + b;
      FirstMatchConcat(a[1..], b, name);
    }
  }

  /** The first match is the first one: everything before it does not match, and None means no match at all. */
  lemma {:induction false} FirstMatchIsFirst(visits: seq<Visit>, name: seq<Byte>)
    ensures match FirstMatch(visits, name)
      case None => forall i :: 0 <= i < |visits| ==> !Matches(visits[i].name, name)
      case Some(v) => exists k :: 0 <= k < |visits| && visits[k] == v && Matches(v.name, name)
                        && forall i :: 0 <= i < k ==> !Matches(visits[i].name, name)
  {
    if visits != [] && !Matches(visits[0].name, name) {
      FirstMatchIsFirst(visits[1..], name);
      match FirstMatch(visits[1..], name)
      case None =>
      case Some(v) =>
        var k :| 0 <= k < |visits[1..]| && visits[1..][k] == v && forall i :: 0 <= i < k ==>
          !Matches(visits[1..][i].name, name);
        assert visits[k + 1] == v;
        assert forall i :: 0 <= i < k + 1 ==> !Matches(visits[i].name, name) by {
          forall i | 0 <= i < k + 1
            ensures !Matches(visits[i].name, name)
          {
            assert i > 0 ==> visits[i] == visits[1..][i - 1];
          }
        }
    }
  }
}
