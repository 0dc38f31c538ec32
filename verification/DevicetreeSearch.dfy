/** The cursor search over a structure block. */
module DevicetreeSearch {
  import opened Common
  import opened DevicetreeBlob

  // ---------------------------------------------------------------- bytes in place

  ghost predicate EncodedAt(blob: seq<Byte>, p: nat, bytes: seq<Byte>) {
    p + |bytes| <= |blob| && blob[p..p + |bytes|] == bytes
  }

  lemma EncodedSplit(blob: seq<Byte>, p: nat, a: seq<Byte>, b: seq<Byte>)
    requires EncodedAt(blob, p, a + b)
    ensures EncodedAt(blob, p, a) && EncodedAt(blob, p + |a|, b)
  {
    var all := blob[p..p + |a + b|];
    assert all[..|a|] == a && all[|a|..] == b;
    assert blob[p..p + |a|] == all[..|a|];
    assert blob[p + |a|..p + |a| + |b|] == all[|a|..];
  }

  /** The four bytes at `p`. */
  function Token(blob: seq<Byte>, p: nat): (t: seq<Byte>)
    ensures |t| == 4
  {
    [ByteAt(blob, p), ByteAt(blob, p + 1), ByteAt(blob, p + 2), ByteAt(blob, p + 3)]
  }

  lemma TokenIs(blob: seq<Byte>, p: nat, w: seq<Byte>)
    requires |w| == 4 && EncodedAt(blob, p, w)
    ensures Token(blob, p) == w && p + 4 <= |blob|
  {
  }

  function ReadNode(blob: seq<Byte>, p: nat): Result<seq<Byte>, ()> {
    if p >= |blob| then Err(()) else Ok(Token(blob, p))
  }

  function SkipPadding(p: nat): (q: nat)
    requires p > 0
    ensures q == Align(p)
  {
    (p - 1) / 4 * 4 + 4
  }

  // ---------------------------------------------------------------- NOP tokens

  ghost function NopEnd(blob: seq<Byte>, p: nat): (q: nat)
    ensures q >= p
    decreases |blob| - p
  {
    if p < |blob| && Token(blob, p) == NOP then NopEnd(blob, p + 4) else p
  }

  method SkipNop(blob: seq<Byte>, p0: nat) returns (r: Result<nat, ()>)
    ensures r.Ok? <==> NopEnd(blob, p0) < |blob|
    ensures r.Ok? ==> r.value == NopEnd(blob, p0)
  {
    var p := p0;
    while true
      invariant NopEnd(blob, p0) == NopEnd(blob, p)
      decreases |blob| - p
    {
      var t := ReadNode(blob, p);
      if t.Err? {
        return Err(());
      }
      if t.value != NOP {
        return Ok(p);
      }
      p := p + 4;
    }
  }

  ghost function StripNops(items: Items): (it: Items)
    ensures !it.Nop?
  {
    match items
    case Nop(rest) => StripNops(rest)
    case _ => items
  }

  /** Items at a place of the block, as the search sees them. */
  ghost predicate At(blob: seq<Byte>, strings: seq<Byte>, items: Items, p: nat) {
    Encodable(items) && WellFormed(strings, items) && EncodedAt(blob, p, Encode(items))
  }

  /** The token in front of an item tells its kind. */
  lemma TokenKind(blob: seq<Byte>, strings: seq<Byte>, items: Items, p: nat)
    requires At(blob, strings, items, p)
    ensures p + 4 <= |blob|
    ensures Token(blob, p) ==
      match items case Last => END_NODE case Nop(_) => NOP case Prop(_, _, _) => PROP case Child(_, _, _) => BEGIN_NODE
  {
    hide WellFormed, Encode, EncodedAt;
    match items
    case Last => EncodeLast(); TokenIs(blob, p, END_NODE);
    case Nop(rest) => EncodeNop(items); EncodedSplit(blob, p, NOP, Encode(rest)); TokenIs(blob, p, NOP);
    case Prop(nameOffset, value, rest) =>
      EncodeProp(items);
      EncodedSplit(blob, p, PROP, Word(|value|) + (Word(nameOffset) + (Pad(value) + Encode(rest))));
      TokenIs(blob, p, PROP);
    case Child(name, body, rest) =>
      EncodeChild(items);
      EncodedSplit(blob, p, BEGIN_NODE, Pad(name + [0]) + (Encode(body) + Encode(rest)));
      TokenIs(blob, p, BEGIN_NODE);
  }

  lemma EncodeLast()
    ensures Encode(Last) == END_NODE
  {
  }

  lemma EncodeNop(items: Items)
    requires items.Nop? && Encodable(items)
    ensures Encode(items) == NOP + Encode(items.rest)
  {
  }

  lemma EncodeProp(items: Items)
    requires items.Prop? && Encodable(items)
    ensures Encode(items) ==
      PROP + (Word(|items.value|) + (Word(items.nameOffset) + (Pad(items.value) + Encode(items.rest))))
  {
  }

  lemma EncodeChild(items: Items)
    requires items.Child? && Encodable(items)
    ensures Encode(items) == BEGIN_NODE + (Pad(items.name + [0]) + (Encode(items.body) + Encode(items.rest)))
    ensures Encode(items) == EncodeNode(items.name, items.body) + Encode(items.rest)
  {
    var n, b, e := Pad(items.name + [0]), Encode(items.body), Encode(items.rest);
    assert (BEGIN_NODE + n + b) + e == BEGIN_NODE + (n + (b + e));
  }

  /** NOP tokens are passed over without changing what the items mean. */
  lemma {:induction false} AfterNops(blob: seq<Byte>, strings: seq<Byte>, items: Items, p: nat, now: Cells,
                                     cells: Cells)
    requires At(blob, strings, items, p) && p % 4 == 0
    ensures var it, q := StripNops(items), NopEnd(blob, p);
      && At(blob, strings, it, q) && q % 4 == 0 && q < |blob|
      && Visits(strings, it, q, cells) == Visits(strings, items, p, cells)
      && Declared(strings, it, now) == Declared(strings, items, now)
      && q + |Encode(it)| == p + |Encode(items)|
  {
    hide EncodedAt, Encode;
    TokenKind(blob, strings, items, p);
    match items
    case Nop(rest) =>
      EncodeNop(items);
      EncodedSplit(blob, p, NOP, Encode(rest));
      AfterNops(blob, strings, rest, p + 4, now, cells);
    case _ =>
  }

  // ---------------------------------------------------------------- names

  lemma {:induction false} StringAtEnds(bytes: seq<Byte>, p: nat, i: nat)
    requires i <= |StringAt(bytes, p)|
    ensures StringAt(bytes, p)[i..] == StringAt(bytes, p + i)
    ensures i < |StringAt(bytes, p)| ==> ByteAt(bytes, p + i) != 0 && StringAt(bytes, p)[i] == ByteAt(bytes, p + i)
    ensures i == |StringAt(bytes, p)| ==> ByteAt(bytes, p + i) == 0
    decreases i
  {
    if i > 0 {
      StringAtEnds(bytes, p + 1, i - 1);
    }
  }

  /** An encoded name reads back as a string. */
  lemma {:induction false} StringOf(blob: seq<Byte>, p: nat, name: seq<Byte>, tail: seq<Byte>)
    requires EncodedAt(blob, p, name + [0] + tail) && 0 !in name
    ensures StringAt(blob, p) == name
    decreases |name|
  {
    var all := name + [0] + tail;
    assert blob[p] == blob[p..p + |all|][0] == all[0];
    if name != [] {
      assert all[1..] == name[1..] + [0] + tail;
      assert blob[p + 1..p + |all|] == blob[p..p + |all|][1..];
      StringOf(blob, p + 1, name[1..], tail);
    }
  }

  lemma PaddedName(blob: seq<Byte>, p: nat, name: seq<Byte>)
    requires EncodedAt(blob, p, Pad(name + [0])) && 0 !in name
    ensures StringAt(blob, p) == name
  {
    StringOf(blob, p, name, Zeros(Align(|name| + 1) - (|name| + 1)));
  }

  /** Moves past the rest of a string, its NUL and the padding. */
  method SkipString(blob: seq<Byte>, p: nat, ghost start: nat, ghost i: nat) returns (q: nat)
    requires i <= |StringAt(blob, start)| && p == start + i
    ensures q == Align(start + |StringAt(blob, start)| + 1)
  {
    q := p;
    ghost var k := i;
    StringAtEnds(blob, start, k);
    while ByteAt(blob, q) != 0
      invariant k <= |StringAt(blob, start)| && q == start + k
      invariant ByteAt(blob, q) != 0 <==> k < |StringAt(blob, start)|
      decreases |StringAt(blob, start)| - k
    {
      q, k := q + 1, k + 1;
      StringAtEnds(blob, start, k);
    }
    q := SkipPadding(q + 1);
  }

  /** Compares a node name with a name that may be followed by '@', and moves past it in any case. */
  method CompareString(blob: seq<Byte>, p0: nat, name: seq<Byte>) returns (found: bool, p: nat)
    requires 0 !in name
    ensures found <==> Matches(StringAt(blob, p0), name)
    ensures p == Align(p0 + |StringAt(blob, p0)| + 1)
  {
    ghost var s := StringAt(blob, p0);
    var i := 0;
    StringAtEnds(blob, p0, 0);
    while i < |name|
      invariant i <= |name| && i <= |s| && name[..i] == s[..i]
    {
      StringAtEnds(blob, p0, i);
      if name[i] != ByteAt(blob, p0 + i) {
        Mismatch(s, name, i, ByteAt(blob, p0 + i));
        p := SkipString(blob, p0 + i, p0, i);
        return false, p;
      }
      assert name[i] in name;
      i := i + 1;
    }
    StringAtEnds(blob, p0, i);
    found := ByteAt(blob, p0 + i) == AT || ByteAt(blob, p0 + i) == 0;
    p := SkipString(blob, p0 + i, p0, i);
  }

  lemma Mismatch(s: seq<Byte>, name: seq<Byte>, i: nat, b: Byte)
    requires i < |name| && i <= |s| && b != name[i] && (i < |s| ==> s[i] == b)
    ensures !Matches(s, name)
  {
  }

  /** Compares a property's name in the strings block. */
  method CompareNameSegment(strings: seq<Byte>, offset: nat, name: seq<Byte>) returns (r: Result<bool, ()>)
    requires 0 !in name
    ensures r.Err? <==> offset >= |strings|
    ensures r.Ok? ==> r.value == (StringAt(strings, offset) == name)
  {
    if offset >= |strings| {
      return Err(());
    }
    ghost var s := StringAt(strings, offset);
    var i := 0;
    StringAtEnds(strings, offset, 0);
    while i < |name|
      invariant i <= |name| && i <= |s| && name[..i] == s[..i]
    {
      StringAtEnds(strings, offset, i);
      if name[i] != ByteAt(strings, offset + i) {
        Mismatch(s, name, i, ByteAt(strings, offset + i));
        return Ok(false);
      }
      assert name[i] in name;
      i := i + 1;
    }
    StringAtEnds(strings, offset, i);
    r := Ok(ByteAt(strings, offset + i) == 0);
  }

  /** Takes over a cell count if the property is one. */
  method CheckAddressAndSizeCells(blob: seq<Byte>, strings: seq<Byte>, nameOffset: nat, p: nat, cells: Cells)
    returns (r: Result<Cells, ()>)
    ensures forall value: seq<Byte> ::
      nameOffset < |strings| && EncodedAt(blob, p, value)
      && (StringAt(strings, nameOffset) == ADDRESS_CELLS || StringAt(strings, nameOffset) == SIZE_CELLS ==>
          |value| >= 4) ==>
        r.Ok? && r.value == Declare(strings, nameOffset, value, cells)
  {
    hide StringAt, FromWord, Token;
    CellNames();
    var a := CompareNameSegment(strings, nameOffset, ADDRESS_CELLS);
    if a.Err? {
      return Err(());
    }
    FirstWord(blob, p);
    if a.value {
      var w := ReadNode(blob, p);
      if w.Err? {
        return Err(());
      }
      return Ok(cells.(address := FromWord(w.value)));
    }
    var s := CompareNameSegment(strings, nameOffset, SIZE_CELLS);
    if s.Err? {
      return Err(());
    }
    if s.value {
      var w := ReadNode(blob, p);
      if w.Err? {
        return Err(());
      }
      return Ok(cells.(size := FromWord(w.value)));
    }
    r := Ok(cells);
  }

  lemma CellNames()
    ensures 0 !in ADDRESS_CELLS && 0 !in SIZE_CELLS && ADDRESS_CELLS != SIZE_CELLS
  {
  }

  lemma FirstWord(blob: seq<Byte>, p: nat)
    ensures forall value: seq<Byte> :: EncodedAt(blob, p, value) && |value| >= 4 ==>
      p < |blob| && Token(blob, p) == value[..4]
  {
  }

  // ---------------------------------------------------------------- the search

  /** A node found: where its items start, and the cell counts that apply to it. */
  datatype DtbNode = DtbNode(address: nat, cells: Cells)

  ghost function Found(v: Option<Visit>): Option<DtbNode> {
    if v.None? then None else Some(DtbNode(v.value.address, v.value.cells))
  }

  /** A node of the block, with `lead` NOPs in front. */
  ghost predicate NodeAt(blob: seq<Byte>, strings: seq<Byte>, name: seq<Byte>, body: Items, lead: nat, p: nat) {
    && p % 4 == 0 && 0 !in name && Encodable(body) && WellFormed(strings, body)
    && EncodedAt(blob, p, Nops(lead) + EncodeNode(name, body))
  }

  lemma {:induction false} LeadNops(blob: seq<Byte>, strings: seq<Byte>, name: seq<Byte>, body: Items, lead: nat,
                                    p: nat)
    requires NodeAt(blob, strings, name, body, lead, p)
    ensures NopEnd(blob, p) == p + 4 * lead < |blob| && NodeAt(blob, strings, name, body, 0, p + 4 * lead)
    ensures Token(blob, p + 4 * lead) == BEGIN_NODE
    decreases lead
  {
    hide WellFormed, Encodable, EncodeNode, Encode, EncodedAt, StringAt, BodyAt;
    if lead == 0 {
      assert Nops(0) + EncodeNode(name, body) == EncodeNode(name, body);
      NodeStart(blob, p, name, body);
    } else {
      assert Nops(lead) + EncodeNode(name, body) == NOP + (Nops(lead - 1) + EncodeNode(name, body));
      EncodedSplit(blob, p, NOP, Nops(lead - 1) + EncodeNode(name, body));
      TokenIs(blob, p, NOP);
      LeadNops(blob, strings, name, body, lead - 1, p + 4);
    }
  }

  /** The parts of an encoded node. */
  lemma NodeStart(blob: seq<Byte>, p: nat, name: seq<Byte>, body: Items)
    requires Encodable(body) && EncodedAt(blob, p, EncodeNode(name, body)) && 0 !in name
    ensures Token(blob, p) == BEGIN_NODE && p < |blob| && StringAt(blob, p + 4) == name
    ensures EncodedAt(blob, BodyAt(name, p), Encode(body))
      && BodyAt(name, p) + |Encode(body)| == p + |EncodeNode(name, body)|
  {
    hide Encode, EncodedAt, Align, StringAt, Token;
    var n := Pad(name + [0]);
    assert EncodeNode(name, body) == BEGIN_NODE + (n + Encode(body));
    EncodedSplit(blob, p, BEGIN_NODE, n + Encode(body));
    EncodedSplit(blob, p + 4, n, Encode(body));
    TokenIs(blob, p, BEGIN_NODE);
    PaddedName(blob, p + 4, name);
  }

  /** Where the search stands in a node: `rest` is still to be looked at, from the aligned pointer on. */
  ghost predicate Standing(blob: seq<Byte>, strings: seq<Byte>, name: seq<Byte>, rest: Items, pointer: nat, now: Cells,
                           cells: Cells, wanted: Option<Visit>, end: nat)
  {
    && pointer > 0 && At(blob, strings, rest, Align(pointer)) && Declared(strings, rest, now) == cells
    && FirstMatch(Visits(strings, rest, Align(pointer), cells), name) == wanted
    && Align(pointer) + |Encode(rest)| == end
  }

  lemma PassNops(blob: seq<Byte>, strings: seq<Byte>, name: seq<Byte>, rest: Items, pointer: nat, now: Cells,
                 cells: Cells, wanted: Option<Visit>, end: nat)
    requires Standing(blob, strings, name, rest, pointer, now, cells, wanted, end)
    ensures var it, q := StripNops(rest), NopEnd(blob, Align(pointer));
      && q < |blob| && q % 4 == 0 && Standing(blob, strings, name, it, q, now, cells, wanted, end)
      && Token(blob, q) ==
          (match it case Last => END_NODE case Nop(_) => NOP case Prop(_, _, _) => PROP case Child(_, _,
            _) => BEGIN_NODE)
  {
    hide At, Declared, Visits, FirstMatch, Encode;
    AfterNops(blob, strings, rest, Align(pointer), now, cells);
    var it, q := StripNops(rest), NopEnd(blob, Align(pointer));
    TokenKind(blob, strings, it, q);
    assert Align(q) == q;
  }

  lemma PassProp(blob: seq<Byte>, strings: seq<Byte>, name: seq<Byte>, it: Items, q: nat, now: Cells,
                 cells: Cells, wanted: Option<Visit>, end: nat)
    requires it.Prop? && q % 4 == 0 && Standing(blob, strings, name, it, q, now, cells, wanted, end)
    ensures q + 8 < |blob| && Token(blob, q + 4) == Word(|it.value|) && Token(blob, q + 8) == Word(it.nameOffset)
    ensures |it.value| < 0x1_0000_0000 && it.nameOffset < 0x1_0000_0000 && it.nameOffset < |strings|
    ensures EncodedAt(blob, q + 12, it.value)
    ensures StringAt(strings, it.nameOffset) == ADDRESS_CELLS || StringAt(strings, it.nameOffset) == SIZE_CELLS ==>
      |it.value| >= 4
    ensures Standing(blob, strings, name, it.rest, q + 12 + |it.value|,
      Declare(strings, it.nameOffset, it.value, now), cells, wanted, end)
  {
    hide EncodedAt, Encode, FirstMatch, StringAt, Declare, Word, Pad, Align, Token;
    AlignSum(q, 0);
    PropParts(blob, it, q);
    AlignSum(q + 12, |it.value|);
  }

  lemma PropParts(blob: seq<Byte>, it: Items, q: nat)
    requires it.Prop? && Encodable(it) && EncodedAt(blob, q, Encode(it))
    ensures q + 8 < |blob| && Token(blob, q + 4) == Word(|it.value|) && Token(blob, q + 8) == Word(it.nameOffset)
    ensures EncodedAt(blob, q + 12, it.value) && EncodedAt(blob, q + 12 + Align(|it.value|), Encode(it.rest))
    ensures |Encode(it)| == 12 + Align(|it.value|) + |Encode(it.rest)|
  {
    hide EncodedAt, Encode, Word, Pad, Align, Token;
    var w, n, v, e := Word(|it.value|), Word(it.nameOffset), Pad(it.value), Encode(it.rest);
    EncodeProp(it);
    EncodedSplit(blob, q, PROP, w + (n + (v + e)));
    EncodedSplit(blob, q + 4, w, n + (v + e));
    EncodedSplit(blob, q + 8, n, v + e);
    EncodedSplit(blob, q + 12, v, e);
    TokenIs(blob, q + 4, w);
    TokenIs(blob, q + 8, n);
    Unpadded(blob, q + 12, it.value);
  }

  lemma Unpadded(blob: seq<Byte>, p: nat, value: seq<Byte>)
    requires EncodedAt(blob, p, Pad(value))
    ensures EncodedAt(blob, p, value)
  {
    EncodedSplit(blob, p, value, Zeros(Align(|value|) - |value|));
  }

  lemma AlignSum(p: nat, n: nat)
    requires p % 4 == 0
    ensures Align(p + n) == p + Align(n) && Align(p) == p
  {
  }

  lemma PassChild(blob: seq<Byte>, strings: seq<Byte>, name: seq<Byte>, it: Items, q: nat, now: Cells,
                  cells: Cells, wanted: Option<Visit>, end: nat)
    requires it.Child? && q % 4 == 0 && Standing(blob, strings, name, it, q, now, cells, wanted, end)
    ensures NodeAt(blob, strings, it.name, it.body, 0, q) && now == cells
    ensures var found := FirstMatch(VisitsNode(strings, it.name, it.body, q, cells), name);
      if found.Some? then found == wanted
      else Standing(blob, strings, name, it.rest, q + |EncodeNode(it.name, it.body)|, now, cells, wanted, end)
  {
    hide EncodedAt, Encode, EncodeNode, FirstMatch, VisitsNode, Align;
    AlignSum(q, 0);
    var node := EncodeNode(it.name, it.body);
    EncodeChild(it);
    EncodedSplit(blob, q, node, Encode(it.rest));
    NoPropsDeclared(strings, it.rest, now);
    assert Nops(0) + node == node;
    FirstMatchConcat(VisitsNode(strings, it.name, it.body, q, cells), Visits(strings, it.rest, q + |node|, cells),
      name);
    NodeAligned(it.name, it.body);
    AlignSum(q + |node|, 0);
  }

  lemma PassLast(blob: seq<Byte>, strings: seq<Byte>, name: seq<Byte>, it: Items, q: nat, now: Cells,
                 cells: Cells, wanted: Option<Visit>, end: nat)
    requires it.Last? && q % 4 == 0 && Standing(blob, strings, name, it, q, now, cells, wanted, end)
    ensures wanted == None && end == q + 4
  {
  }

  ghost function Left(blob: seq<Byte>, p: nat): nat {
    if p < |blob| then |blob| - p else 0
  }

  /**
    Searches the node at the cursor and everything below it. For a node of a well-formed
    tree it finds the first match in preorder, with the cell counts that apply to it; if there
    is none, the cursor ends just after the node's END_NODE token.
   */
  method SearchFrom(blob: seq<Byte>, strings: seq<Byte>, name: seq<Byte>, p0: nat, cells0: Cells,
                    ghost nodeName: seq<Byte>, ghost body: Items, ghost lead: nat)
    returns (r: Result<Option<DtbNode>, ()>, p: nat)
    requires 0 !in name
    ensures r.Ok? ==> p > p0
    ensures NopEnd(blob, p0) >= |blob| || Token(blob, NopEnd(blob, p0)) != BEGIN_NODE ==> r.Err?
    ensures NodeAt(blob, strings, nodeName, body, lead, p0) ==>
      && r.Ok? && r.value == Found(FirstMatch(VisitsNode(strings, nodeName, body, p0 + 4 * lead, cells0), name))
      && (r.value.None? ==> p == p0 + 4 * lead + |EncodeNode(nodeName, body)|)
    decreases Left(blob, p0), 1
  {
    hide NodeAt, FirstMatch, Matches, EncodeNode, VisitsNode, Token, Align, StringAt;
    p := p0;
    ghost var ok := NodeAt(blob, strings, nodeName, body, lead, p0);
    var q := SkipNop(blob, p0);
    if ok { LeadNops(blob, strings, nodeName, body, lead, p0); }
    if q.Err? {
      return Err(()), p;
    }
    p := q.value;
    var t := ReadNode(blob, p);
    if t.Err? || t.value != BEGIN_NODE {
      return Err(()), p;
    }
    ghost var begin := p;
    p := p + 4;
    var found;
    found, p := CompareString(blob, p, name);
    if ok { Entered(blob, strings, name, nodeName, body, begin, cells0); }
    if found {
      return Ok(Some(DtbNode(p, cells0))), p;
    }
    r, p := SearchItems(blob, strings, name, p, cells0, body,
                        if ok then Declared(strings, body, cells0) else cells0,
                        if ok then FirstMatch(VisitsNode(strings, nodeName, body, begin, cells0), name) else None,
                        if ok then begin + |EncodeNode(nodeName, body)| else 0);
  }

  /** At the start of a node's items, unless the node itself matches. */
  lemma Entered(blob: seq<Byte>, strings: seq<Byte>, name: seq<Byte>, nodeName: seq<Byte>, body: Items, p: nat,
                cells: Cells)
    requires NodeAt(blob, strings, nodeName, body, 0, p)
    ensures StringAt(blob, p + 4) == nodeName && Align(p + 4 + |nodeName| + 1) == BodyAt(nodeName, p)
    ensures var wanted := FirstMatch(VisitsNode(strings, nodeName, body, p, cells), name);
      if Matches(nodeName, name) then wanted == Some(Visit(nodeName, BodyAt(nodeName, p), cells))
      else Standing(blob, strings, name, body, BodyAt(nodeName, p), cells, Declared(strings, body, cells), wanted,
        p + |EncodeNode(nodeName, body)|)
  {
    hide EncodeNode, Encode, Matches, Align, EncodedAt, StringAt, Visits;
    assert Nops(0) + EncodeNode(nodeName, body) == EncodeNode(nodeName, body);
    NodeStart(blob, p, nodeName, body);
    AlignSum(p + 4, |nodeName| + 1);
    AlignSum(BodyAt(nodeName, p), 0);
    var d := Declared(strings, body, cells);
    var v, rest := Visit(nodeName, BodyAt(nodeName, p), cells), Visits(strings, body, BodyAt(nodeName, p), d);
    assert ([v] + rest)[1..] == rest;
  }

  /** Goes through the items of a node up to its END_NODE token. */
  method SearchItems(blob: seq<Byte>, strings: seq<Byte>, name: seq<Byte>, p0: nat, cells0: Cells,
                     ghost body: Items, ghost cells: Cells, ghost wanted: Option<Visit>, ghost end: nat)
    returns (r: Result<Option<DtbNode>, ()>, p: nat)
    requires 0 !in name && p0 > 0
    ensures r.Ok? ==> p >= p0
    ensures Standing(blob, strings, name, body, p0, cells0, cells, wanted, end) ==>
      r.Ok? && r.value == Found(wanted) && (wanted.None? ==> p == end)
    decreases Left(blob, p0), 2
  {
    hide Standing, NodeAt, FirstMatch, EncodeNode, VisitsNode, Token, Align, EncodedAt, Declare, StringAt, FromWord,
      Word;
    p := p0;
    var now := cells0;
    ghost var ok := Standing(blob, strings, name, body, p0, cells0, cells, wanted, end);
    ghost var rest := body;
    while true
      invariant p >= p0
      invariant ok ==> Standing(blob, strings, name, rest, p, now, cells, wanted, end)
      decreases Left(blob, p)
    {
      var q := SkipNop(blob, SkipPadding(p));
      ghost var it := StripNops(rest);
      if ok { PassNops(blob, strings, name, rest, p, now, cells, wanted, end); }
      if q.Err? {
        return Err(()), p;
      }
      p := q.value;
      var t := ReadNode(blob, p);
      if t.Err? {
        return Err(()), p;
      }
      if t.value == BEGIN_NODE {
        if ok { PassChild(blob, strings, name, it, p, now, cells, wanted, end); }
        var found;
        found, p := SearchFrom(blob, strings, name, p, now, if ok then it.name else [], if ok then it.body
          else Last, 0);
        if found.Err? || found.value.Some? {
          return found, p;
        }
        rest := if ok then it.rest else Last;
      } else if t.value == END_NODE {
        if ok { PassLast(blob, strings, name, it, p, now, cells, wanted, end); }
        return Ok(None), p + 4;
      } else if t.value == PROP {
        if ok { PassProp(blob, strings, name, it, p, now, cells, wanted, end); }
        p := p + 4;
        var length := ReadNode(blob, p);
        if length.Err? {
          return Err(()), p;
        }
        var segment := ReadNode(blob, p + 4);
        if segment.Err? {
          return Err(()), p;
        }
        if ok { Words(it); }
        var c := CheckAddressAndSizeCells(blob, strings, FromWord(segment.value), p + 8, now);
        if c.Err? {
          return Err(()), p;
        }
        now := c.value;
        p := p + 8 + FromWord(length.value);
        rest := if ok then it.rest else Last;
      } else {
        return Err(()), p;
      }
    }
  }

  lemma Words(it: Items)
    requires it.Prop? && |it.value| < 0x1_0000_0000 && it.nameOffset < 0x1_0000_0000
    ensures FromWord(Word(|it.value|)) == |it.value| && FromWord(Word(it.nameOffset)) == it.nameOffset
  {
    WordRoundTrip(|it.value|);
    WordRoundTrip(it.nameOffset);
  }

  /**
    Searches a whole structure block from the root. For a well-formed block it returns the
    first node in preorder whose name matches, with the cell counts of the nearest enclosing
    declaration, or None when there is none.
   */
  method SearchNode(blob: seq<Byte>, strings: seq<Byte>, name: seq<Byte>, ghost lead: nat, ghost root: seq<Byte>,
                    ghost body: Items, ghost trail: nat)
    returns (r: Option<DtbNode>)
    requires 0 !in name
    ensures 0 !in root && Encodable(body) && WellFormed(strings, body) && blob == Block(lead, root, body, trail) ==>
      r == Found(FirstMatch(VisitsNode(strings, root, body, 4 * lead, DEFAULT_CELLS), name))
  {
    hide FirstMatch, VisitsNode, NodeAt, EncodeNode, Encodable, WellFormed, EncodedAt, Nops, Token;
    ghost var ok := 0 !in root && Encodable(body) && WellFormed(strings, body)
      && blob == Block(lead, root, body, trail);
    ghost var wanted := if ok then Found(FirstMatch(VisitsNode(strings, root, body, 4 * lead, DEFAULT_CELLS), name))
      else None;
    if ok { BlockParts(blob, strings, lead, root, body, trail); }
    var p: nat := 0;
    while ReadNode(blob, p).Ok?
      invariant ok && p == 0 ==> NodeAt(blob, strings, root, body, lead, 0)
      invariant ok && p > 0 ==> wanted == None && Trailing(blob, p)
      decreases Left(blob, p)
    {
      var found, q := SearchFrom(blob, strings, name, p, DEFAULT_CELLS, root, body, lead);
      if found.Err? {
        return None;
      }
      if found.value.Some? {
        return found.value;
      }
      if ok { AfterRoot(blob, q, trail); }
      p := q + 4;
    }
    return None;
  }

  /** Nothing but NOPs and the end of the block, or nothing at all. */
  ghost predicate Trailing(blob: seq<Byte>, p: nat) {
    p >= |blob| || Token(blob, NopEnd(blob, p)) != BEGIN_NODE
  }

  lemma BlockParts(blob: seq<Byte>, strings: seq<Byte>, lead: nat, root: seq<Byte>, body: Items, trail: nat)
    requires 0 !in root && Encodable(body) && WellFormed(strings, body) && blob == Block(lead, root, body, trail)
    ensures NodeAt(blob, strings, root, body, lead, 0) && 4 * lead + |EncodeNode(root, body)| < |blob|
    ensures EncodedAt(blob, 4 * lead + |EncodeNode(root, body)|, Nops(trail) + END)
  {
    hide EncodeNode, Encodable, WellFormed, Nops;
    var a, b := Nops(lead) + EncodeNode(root, body), Nops(trail) + END;
    assert blob == a + b;
    assert blob[0..|a + b|] == a + b;
    EncodedSplit(blob, 0, a, b);
  }

  /** One token after the root node there are only NOPs and the end. */
  lemma AfterRoot(blob: seq<Byte>, q: nat, trail: nat)
    requires EncodedAt(blob, q, Nops(trail) + END) && q + 4 * trail + 4 == |blob|
    ensures Trailing(blob, q + 4)
  {
    hide EncodedAt;
    if trail > 0 {
      assert Nops(trail) + END == NOP + (Nops(trail - 1) + END);
      EncodedSplit(blob, q, NOP, Nops(trail - 1) + END);
      TrailEnd(blob, q + 4, trail - 1);
    }
  }

  lemma {:induction false} TrailEnd(blob: seq<Byte>, p: nat, n: nat)
    requires EncodedAt(blob, p, Nops(n) + END)
    ensures Token(blob, NopEnd(blob, p)) == END
    decreases n
  {
    hide EncodedAt, Token;
    if n == 0 {
      assert Nops(0) + END == END;
      TokenIs(blob, p, END);
    } else {
      assert Nops(n) + END == NOP + (Nops(n - 1) + END);
      EncodedSplit(blob, p, NOP, Nops(n - 1) + END);
      TokenIs(blob, p, NOP);
      TrailEnd(blob, p + 4, n - 1);
    }
  }
}
