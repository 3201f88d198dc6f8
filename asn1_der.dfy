/** The decoded tree of `src/asn1_der.rs`: nodes and values, the tag-driven
    decoder over the `der` crate's `Any`, pre-order flattening, and the pieces
    of the row rendering that the viewer itself computes. */
module Asn1Der {
  import opened Wrappers
  import Der
  import Utf8

  /** `ASN1Node`. `level` is the depth below the root, `index` the position in
      the flattened list; `expanded`, `visible` and `index` are the only fields
      that change after decoding. */
  datatype Node = Node(
    tag: Der.Tag,
    value: Value,
    level: nat,
    expandable: bool,
    expanded: bool,
    visible: bool,
    index: nat)

  /** `ASN1Value`: one variant per supported tag, plus `Other` for the rest.
      The five wrapping variants share the destructor `inner`. */
  datatype Value =
    | Boolean(boolean: bool)
    | Integer(integer: Der.u128)
    | BitString(bits: Der.BitStringValue)
    | OctetString(inner: Node)
    | Null
    | ObjectIdentifier(arcs: seq<nat>)
    | Utf8String(utf8: seq<Der.byte>)
    | Sequence(children: seq<Node>)
    | Set(inner: Node)
    | PrintableString(text: string)
    | Ia5String(text: string)
    | UtcTime(unixSeconds: nat)
    | Application(inner: Node)
    | ContextSpecific(inner: Node)
    | Private(inner: Node)
    | Other(unsupported: Der.Tag)
  {
    /** The variants that hold exactly one nested node. */
    predicate IsWrapper() {
      OctetString? || Set? || Application? || ContextSpecific? || Private?
    }

    /** The variants `toggle_expand` acts on. */
    predicate IsContainer() {
      Sequence? || IsWrapper()
    }
  }

  /** `der::Error`: the decoder has a single kind of failure. */
  datatype DecodeError = DecodeError

  /** `ASN1Node::new`: a node is built collapsed, with index 0. */
  function NewNode(tag: Der.Tag, value: Value, level: nat, expandable: bool, visible: bool): (n: Node)
    ensures n.tag == tag && n.value == value && n.level == level
    ensures n.expandable == expandable && n.visible == visible
    ensures !n.expanded && n.index == 0
  {
    Node(tag, value, level, expandable, false, visible, 0)
  }

  /** `is_node_expandable`. */
  function IsNodeExpandable(tag: Der.Tag): (r: bool)
    ensures r <==> tag.Sequence? || tag.Set? || tag.OctetString?
                   || tag.ContextSpecific? || tag.Application? || tag.Private?
  {
    match tag
    case Sequence => true
    case Set => true
    case OctetString => true
    case ContextSpecific(_, _) => true
    case Application(_, _) => true
    case Private(_, _) => true
    case _ => false
  }

  /** `toggle_expand`: flips `expanded`, but only on a container value. */
  function ToggleExpand(n: Node): (r: Node)
    ensures r == n.(expanded := r.expanded)
    ensures r.expanded == (if n.value.IsContainer() then !n.expanded else n.expanded)
  {
    if n.value.IsContainer() then n.(expanded := !n.expanded) else n
  }

  lemma ToggleExpandTwice(n: Node)
    ensures ToggleExpand(ToggleExpand(n)) == n
  {
  }

  /** The nodes one level down, in stored order. */
  function Children(n: Node): (cs: seq<Node>)
    ensures n.value.Sequence? ==> cs == n.value.children
    ensures n.value.IsWrapper() ==> cs == [n.value.inner]
    ensures !n.value.IsContainer() ==> cs == []
  {
    if n.value.Sequence? then n.value.children
    else if n.value.IsWrapper() then [n.value.inner]
    else []
  }

  /** The shape every decoded tree has: each child is one level below its
      parent, and a node is expandable exactly when its value is a container. */
  predicate WellShaped(n: Node) {
    && n.expandable == n.value.IsContainer()
    && (n.value.Sequence? ==>
          forall c | c in n.value.children :: c.level == n.level + 1 && WellShaped(c))
    && (n.value.IsWrapper() ==>
          n.value.inner.level == n.level + 1 && WellShaped(n.value.inner))
  }

  /** The flags every decoded node starts with, all the way down. */
  predicate Pristine(n: Node) {
    && !n.expanded && !n.visible && n.index == 0
    && (n.value.Sequence? ==> forall c | c in n.value.children :: Pristine(c))
    && (n.value.IsWrapper() ==> Pristine(n.value.inner))
  }

  // ---------------------------------------------------------------------------
  // Decoding

  /** `parse_asn1`'s pre-pass AS WRITTEN: a leading GeneralString identifier
      octet (universal 27, which the crate does not know) becomes the
      PrintableString one (universal 19); reading `data_vec[0]` of an empty
      buffer panics, shown here as `None`. */
  function GeneralStringFixAsWritten(data: seq<Der.byte>): (r: Option<seq<Der.byte>>)
    ensures r.None? <==> data == []
    ensures r.Some? ==> r.value == GeneralStringFix(data)
  {
    if |data| == 0 then None
    else if data[0] == 27 then Some([19] + data[1..])
    else Some(data)
  }

  /** The same pre-pass with the empty buffer let through, so that the crate
      rejects it and the decoder falls back to a NULL as for any other buffer
      it cannot read. */
  function GeneralStringFix(data: seq<Der.byte>): (r: seq<Der.byte>)
    ensures |r| == |data|
    ensures |data| > 0 ==> r[0] == (if data[0] == 27 then 19 else data[0])
    ensures forall i | 1 <= i < |data| :: r[i] == data[i]
  {
    if |data| > 0 && data[0] == 27 then [19] + data[1..] else data
  }

  /** `parse_asn1` (with the empty-buffer guard): what the crate cannot read
      as a single TLV becomes `Any::null()`. */
  function ParseAsn1(lib: Der.Library, data: seq<Der.byte>, level: nat): (r: Result<Node, DecodeError>)
    requires Der.Sound(lib)
    decreases |data|, 2
    ensures r.Ok? ==> r.value.level == level && WellShaped(r.value) && Pristine(r.value)
  {
    var fixed := GeneralStringFix(data);
    var any := match lib.fromDer(fixed) case Some(a) => a case None => Der.NullAny;
    ParseAny(lib, any, level)
  }

  /** `parse_any`: dispatch on the tag. Every nested node is one level down;
      a SEQUENCE's elements are decoded in order; SET, OCTET STRING and the
      three non-universal classes hold their content decoded as one nested
      buffer, except a primitive context-specific value, whose raw content
      becomes a synthetic UTF8String leaf; an unsupported tag is an `Other`
      leaf. */
  function ParseAny(lib: Der.Library, any: Der.Any, level: nat): (r: Result<Node, DecodeError>)
    requires Der.Sound(lib)
    decreases |any.value|, if any.tag.Null? then 1 else 4
    ensures r.Ok? ==> r.value.tag == any.tag && r.value.level == level
    ensures r.Ok? ==> WellShaped(r.value) && Pristine(r.value)
  {
    match ParseValue(lib, any, level)
    case Ok(v) => Ok(NewNode(any.tag, v, level, IsNodeExpandable(any.tag), false))
    case Err(e) => Err(e)
  }

  /** The value `parse_any` builds for a TLV at `level`: a container exactly
      for the tags that make a node expandable, its nested nodes one level
      down, well-shaped and pristine. */
  function ParseValue(lib: Der.Library, any: Der.Any, level: nat): (r: Result<Value, DecodeError>)
    requires Der.Sound(lib)
    decreases |any.value|, if any.tag.Null? then 0 else 3
    ensures r.Ok? ==> r.value.IsContainer() == IsNodeExpandable(any.tag)
    ensures r.Ok? && r.value.Sequence? ==>
              forall c | c in r.value.children :: c.level == level + 1 && WellShaped(c) && Pristine(c)
    ensures r.Ok? && r.value.IsWrapper() ==>
              r.value.inner.level == level + 1 && WellShaped(r.value.inner) && Pristine(r.value.inner)
  {
    var content := any.value;
    match any.tag
    case Integer =>
      (match lib.integer(content) case Some(i) => Ok(Integer(i)) case None => Err(DecodeError))
    case OctetString =>
      (match ParseAsn1(lib, content, level + 1)
       case Ok(inner) => Ok(OctetString(inner)) case Err(e) => Err(e))
    case Sequence =>
      (match ParseElements(lib, content, level + 1)
       case Ok(children) => Ok(Sequence(children)) case Err(e) => Err(e))
    case Set =>
      (match ParseAsn1(lib, content, level + 1)
       case Ok(inner) => Ok(Set(inner)) case Err(e) => Err(e))
    case BitString =>
      (match lib.bitString(content) case Some(b) => Ok(BitString(b)) case None => Err(DecodeError))
    case Boolean =>
      (match lib.boolean(content) case Some(b) => Ok(Boolean(b)) case None => Err(DecodeError))
    case Null => Ok(Null)
    case ObjectIdentifier =>
      (match lib.objectIdentifier(content)
       case Some(o) => Ok(ObjectIdentifier(o)) case None => Err(DecodeError))
    case Utf8String => Ok(Utf8String(Utf8.Lossy(content)))
    case Ia5String =>
      (match lib.ia5String(content) case Some(s) => Ok(Ia5String(s)) case None => Err(DecodeError))
    case UtcTime =>
      (match lib.utcTime(content) case Some(t) => Ok(UtcTime(t)) case None => Err(DecodeError))
    case PrintableString =>
      (match lib.printableString(content)
       case Some(s) => Ok(PrintableString(s)) case None => Err(DecodeError))
    case Application(_, _) =>
      (match ParseAsn1(lib, content, level + 1)
       case Ok(inner) => Ok(Application(inner)) case Err(e) => Err(e))
    case ContextSpecific(_, _) =>
      if any.tag.IsConstructed() then
        (match ParseAsn1(lib, content, level + 1)
         case Ok(inner) => Ok(ContextSpecific(inner)) case Err(e) => Err(e))
      else
        Ok(ContextSpecific(NewNode(Der.Utf8String, Utf8String(content), level + 1, false, false)))
    case Private(_, _) =>
      (match ParseAsn1(lib, content, level + 1)
       case Ok(inner) => Ok(Private(inner)) case Err(e) => Err(e))
    case OtherUniversal(_) => Ok(Other(any.tag))
  }

  /** The `while !decoder.is_finished()` loop of the SEQUENCE arm: read one
      element, decode it, go on with the rest. */
  function ParseElements(lib: Der.Library, rest: seq<Der.byte>, level: nat): (r: Result<seq<Node>, DecodeError>)
    requires Der.Sound(lib)
    decreases |rest|, 1
    ensures r.Ok? ==> forall c | c in r.value :: c.level == level && WellShaped(c) && Pristine(c)
  {
    if rest == [] then Ok([])
    else
      match lib.decodeElement(rest)
      case None => Err(DecodeError)
      case Some((element, after)) =>
        match ParseAny(lib, element, level)
        case Err(e) => Err(e)
        case Ok(child) =>
          match ParseElements(lib, after, level)
          case Err(e) => Err(e)
          case Ok(children) => Ok([child] + children)
  }

  /** The TLVs the crate's SEQUENCE reader yields from `rest`, in order, or
      `None` when one of them cannot be read. */
  function Elements(lib: Der.Library, rest: seq<Der.byte>): (r: Option<seq<Der.Any>>)
    requires Der.Sound(lib)
    decreases |rest|
  {
    if rest == [] then Some([])
    else
      match lib.decodeElement(rest)
      case None => None
      case Some((element, after)) =>
        match Elements(lib, after)
        case None => None
        case Some(elements) => Some([element] + elements)
  }

  /** A SEQUENCE decodes exactly when every element can be read and decoded,
      and its children are those elements' nodes in the order they were read. */
  lemma {:induction false} SequenceChildrenInOrder(lib: Der.Library, rest: seq<Der.byte>, level: nat)
    requires Der.Sound(lib)
    ensures ParseElements(lib, rest, level).Ok? <==>
              Elements(lib, rest).Some? &&
              forall k | 0 <= k < |Elements(lib, rest).value| ::
                ParseAny(lib, Elements(lib, rest).value[k], level).Ok?
    ensures ParseElements(lib, rest, level).Ok? ==>
              |ParseElements(lib, rest, level).value| == |Elements(lib, rest).value| &&
              forall k | 0 <= k < |Elements(lib, rest).value| ::
                ParseAny(lib, Elements(lib, rest).value[k], level) == Ok(ParseElements(lib, rest, level).value[k])
    decreases |rest|
  {
    if rest != [] && lib.decodeElement(rest).Some? {
      var (element, after) := lib.decodeElement(rest).value;
      SequenceChildrenInOrder(lib, after, level);
      if Elements(lib, after).Some? {
        var es := Elements(lib, after).value;
        assert Elements(lib, rest).value == [element] + es;
        if ParseAny(lib, element, level).Ok? && ParseElements(lib, after, level).Ok? {
          var cs := ParseElements(lib, after, level).value;
          assert ParseElements(lib, rest, level).value == [ParseAny(lib, element, level).value] + cs;
        } else if ParseAny(lib, element, level).Ok? {
          var k :| 0 <= k < |es| && !ParseAny(lib, es[k], level).Ok?;
          assert Elements(lib, rest).value[k + 1] == es[k];
        } else {
          assert Elements(lib, rest).value[0] == element;
        }
      }
    }
  }

  /** A buffer the crate cannot read as one TLV decodes to a NULL leaf rather
      than an error. */
  lemma UnreadableBufferIsNullLeaf(lib: Der.Library, data: seq<Der.byte>, level: nat)
    requires Der.Sound(lib)
    requires lib.fromDer(GeneralStringFix(data)).None?
    ensures ParseAsn1(lib, data, level) == Ok(NewNode(Der.Null, Null, level, false, false))
  {
  }

  /** An unsupported universal tag decodes to an `Other` leaf rather than an
      error. */
  lemma UnsupportedTagIsOtherLeaf(lib: Der.Library, any: Der.Any, level: nat)
    requires Der.Sound(lib)
    requires any.tag.OtherUniversal?
    ensures ParseAny(lib, any, level) == Ok(NewNode(any.tag, Other(any.tag), level, false, false))
  {
  }

  /** A primitive context-specific value wraps one synthetic, non-expandable
      UTF8String leaf, one level down, holding the raw content octets. */
  lemma PrimitiveContextSpecificLeaf(lib: Der.Library, any: Der.Any, level: nat)
    requires Der.Sound(lib)
    requires any.tag.ContextSpecific? && !any.tag.constructed
    ensures ParseAny(lib, any, level).Ok?
    ensures var n := ParseAny(lib, any, level).value;
            n.expandable && n.value.ContextSpecific? &&
            n.value.inner == NewNode(Der.Utf8String, Utf8String(any.value), level + 1, false, false)
  {
  }

  /** The wrapping tags decode their whole content as one nested buffer, one
      level down. */
  lemma WrapperDecodesContent(lib: Der.Library, any: Der.Any, level: nat)
    requires Der.Sound(lib)
    requires any.tag.OctetString? || any.tag.Set? || any.tag.Application? || any.tag.Private?
             || (any.tag.ContextSpecific? && any.tag.constructed)
    ensures ParseAny(lib, any, level).Ok? <==> ParseAsn1(lib, any.value, level + 1).Ok?
    ensures ParseAny(lib, any, level).Ok? ==>
              ParseAny(lib, any, level).value.value.IsWrapper() &&
              ParseAny(lib, any, level).value.value.inner == ParseAsn1(lib, any.value, level + 1).value
  {
  }

  /** The empty content of `04 00`, `31 00` or `A0 00` (the empty attribute
      set of a PKCS #10 request): the wrapping arm decodes the value exactly
      when the empty buffer decodes one level down, and the pre-pass as
      written panics on that buffer. */
  lemma EmptyContentPanicsAsWritten(lib: Der.Library, tag: Der.Tag, level: nat)
    requires Der.Sound(lib)
    requires tag.OctetString? || tag.Set? || (tag.ContextSpecific? && tag.constructed)
    ensures ParseAny(lib, Der.Any(tag, []), level).Ok? <==> ParseAsn1(lib, [], level + 1).Ok?
    ensures GeneralStringFixAsWritten(Der.Any(tag, []).value).None?
  {
    WrapperDecodesContent(lib, Der.Any(tag, []), level);
  }

  /** With the guard, the same value decodes: its content becomes a NULL leaf. */
  lemma EmptyContentIsNullLeaf(lib: Der.Library, tag: Der.Tag, level: nat)
    requires Der.Sound(lib)
    requires tag.OctetString? || tag.Set? || (tag.ContextSpecific? && tag.constructed)
    ensures ParseAny(lib, Der.Any(tag, []), level).Ok?
    ensures ParseAny(lib, Der.Any(tag, []), level).value.value.IsWrapper()
    ensures ParseAny(lib, Der.Any(tag, []), level).value.value.inner
              == NewNode(Der.Null, Null, level + 1, false, false)
  {
    assert lib.fromDer(GeneralStringFix([])).None?;
    UnreadableBufferIsNullLeaf(lib, [], level + 1);
    WrapperDecodesContent(lib, Der.Any(tag, []), level);
  }

  // ---------------------------------------------------------------------------
  // Flattening

  /** `flatten_nodes`: the node, then each child's flattening in stored order. */
  function Flatten(n: Node): (r: seq<Node>)
    ensures |r| >= 1 && r[0] == n
  {
    [n] + (if n.value.Sequence? then FlattenAll(n.value.children)
           else if n.value.IsWrapper() then Flatten(n.value.inner)
           else [])
  }

  function FlattenAll(cs: seq<Node>): (r: seq<Node>)
    ensures |r| >= |cs|
  {
    if cs == [] then [] else Flatten(cs[0]) + FlattenAll(cs[1..])
  }

  lemma {:induction false} FlattenAllAppend(a: seq<Node>, b: seq<Node>)
    ensures FlattenAll(a + b) == FlattenAll(a) + FlattenAll(b)
    decreases |a|
  {
    if a == [] {
      assert a + b == b;
    } else {
      assert (a + b)[1..] == a[1..] + b;
      FlattenAllAppend(a[1..], b);
    }
  }

  /** One more sibling adds its flattening at the end. */
  lemma FlattenAllSnoc(cs: seq<Node>, k: nat)
    requires k < |cs|
    ensures FlattenAll(cs[..k + 1]) == FlattenAll(cs[..k]) + Flatten(cs[k])
  {
    assert cs[..k + 1] == cs[..k] + [cs[k]];
    FlattenAllAppend(cs[..k], [cs[k]]);
    assert FlattenAll([cs[k]]) == Flatten(cs[k]) + FlattenAll([]);
  }

  /** Pre-order: the node first, then the flattenings of its children one
      after the other; a leaf flattens to itself alone. */
  lemma FlattenPreOrder(n: Node)
    ensures Flatten(n) == [n] + FlattenAll(Children(n))
    ensures |Flatten(n)| == 1 + |FlattenAll(Children(n))|
    ensures !n.value.IsContainer() ==> Flatten(n) == [n]
  {
    if n.value.IsWrapper() {
      assert FlattenAll([n.value.inner]) == Flatten(n.value.inner) + FlattenAll([]);
    }
  }

  /** `flatten_nodes` as the source writes it: push the node, then extend with
      each child's flattening in a loop. */
  method FlattenNodes(node: Node) returns (nodes: seq<Node>)
    ensures nodes == Flatten(node)
    decreases node
  {
    nodes := [node];
    if node.value.Sequence? {
      var children := node.value.children;
      for k := 0 to |children|
        invariant nodes == [node] + FlattenAll(children[..k])
      {
        var sub := FlattenNodes(children[k]);
        FlattenAllSnoc(children, k);
        nodes := nodes + sub;
      }
      assert children[..|children|] == children;
    } else if node.value.IsWrapper() {
      var sub := FlattenNodes(node.value.inner);
      nodes := nodes + sub;
    }
  }

  // ---------------------------------------------------------------------------
  // Rendering

  /** What `display_value` returns. `Text` is a string computed here in
      full; the other cases stand for strings whose characters come from a
      foreign formatter: `{:?}` quoting and escaping of a UTF-8 string or of a
      string, and the `Display` of an object identifier, a UTC time or an
      unsupported tag. */
  datatype Rendering =
    | Text(text: string)
    | QuotedUtf8(utf8: seq<Der.byte>)
    | QuotedText(quoted: string)
    | Formatted(value: Value)

  function DigitChar(d: nat): (c: char)
    requires d < 10
    ensures '0' <= c <= '9' && (c as int) - ('0' as int) == d
  {
    (('0' as int) + d) as char
  }

  /** The decimal text of `n`, as `{:?}` writes a `u128` or a `usize`. */
  function Decimal(n: nat): (s: string)
    ensures |s| >= 1 && forall i | 0 <= i < |s| :: '0' <= s[i] <= '9'
    ensures s[0] == '0' ==> n == 0
  {
    if n < 10 then [DigitChar(n)] else Decimal(n / 10) + [DigitChar(n % 10)]
  }

  /** Reads decimal digits back. */
  function DecimalValue(s: string): nat
    requires forall i | 0 <= i < |s| :: '0' <= s[i] <= '9'
  {
    if s == [] then 0
    else 10 * DecimalValue(s[..|s| - 1]) + ((s[|s| - 1] as int) - ('0' as int))
  }

  lemma {:induction false} DecimalRoundTrip(n: nat)
    ensures DecimalValue(Decimal(n)) == n
  {
    if n >= 10 {
      DecimalRoundTrip(n / 10);
      var s := Decimal(n);
      assert s[..|s| - 1] == Decimal(n / 10);
    }
  }

  /** The `width` low-order bits of `v`, most significant first: `{:08b}` for
      `width` 8. */
  function Binary(v: nat, width: nat): (s: string)
    ensures |s| == width && forall i | 0 <= i < |s| :: s[i] == '0' || s[i] == '1'
  {
    if width == 0 then "" else Binary(v / 2, width - 1) + [if v % 2 == 1 then '1' else '0']
  }

  function Pow2(k: nat): (p: nat)
    ensures p >= 1
  {
    if k == 0 then 1 else 2 * Pow2(k - 1)
  }

  /** Reads binary digits back. */
  function BinaryValue(s: string): nat {
    if s == [] then 0 else 2 * BinaryValue(s[..|s| - 1]) + (if s[|s| - 1] == '1' then 1 else 0)
  }

  lemma {:induction false} BinaryRoundTrip(v: nat, width: nat)
    requires v < Pow2(width)
    ensures BinaryValue(Binary(v, width)) == v
  {
    if width > 0 {
      BinaryRoundTrip(v / 2, width - 1);
      var s := Binary(v, width);
      assert s[..|s| - 1] == Binary(v / 2, width - 1);
    }
  }

  /** The BitString rendering: eight binary digits per raw octet, joined. */
  function BitsText(bytes: seq<Der.byte>): (s: string)
    ensures |s| == 8 * |bytes|
  {
    if bytes == [] then "" else Binary(bytes[0] as nat, 8) + BitsText(bytes[1..])
  }

  /** Octet k of a BitString is rendered at characters 8k to 8k+7, and those
      eight digits read back as the octet. */
  lemma BitsTextAt(bytes: seq<Der.byte>, k: nat)
    requires k < |bytes|
    ensures BitsText(bytes)[8 * k .. 8 * k + 8] == Binary(bytes[k] as nat, 8)
    ensures BinaryValue(BitsText(bytes)[8 * k .. 8 * k + 8]) == bytes[k] as nat
  {
    BitsTextSlice(bytes, k);
    assert Pow2(8) == 256;
    BinaryRoundTrip(bytes[k] as nat, 8);
  }

  lemma {:induction false} BitsTextSlice(bytes: seq<Der.byte>, k: nat)
    requires k < |bytes|
    ensures BitsText(bytes)[8 * k .. 8 * k + 8] == Binary(bytes[k] as nat, 8)
  {
    if k > 0 {
      BitsTextSlice(bytes[1..], k - 1);
      SliceAfter(Binary(bytes[0] as nat, 8), BitsText(bytes[1..]), 8 * k, 8 * k + 8);
    }
  }

  /** A slice lying past the first part of a concatenation is a slice of
      the second part. */
  lemma SliceAfter(a: string, b: string, i: nat, j: nat)
    requires |a| <= i <= j <= |a| + |b|
    ensures (a + b)[i..j] == b[i - |a| .. j - |a|]
  {
  }

  /** `display_value`. */
  function DisplayValue(n: Node): (r: Rendering)
    ensures n.value.Sequence? ==> r == Text("(field(s): " + Decimal(|n.value.children|) + ")")
    ensures n.value.IsWrapper() ==> r == Text("")
    ensures n.value.BitString? ==> r == Text(BitsText(n.value.bits.rawBytes))
    ensures n.value.BitString? ==> r.Text? && |r.text| == 8 * |n.value.bits.rawBytes|
  {
    match n.value
    case Integer(i) => Text(Decimal(i as nat))
    case OctetString(_) => Text("")
    case Sequence(children) => Text("(field(s): " + Decimal(|children|) + ")")
    case Set(_) => Text("")
    case Boolean(b) => Text(if b then "true" else "false")
    case Null => Text("Null")
    case ObjectIdentifier(_) => Formatted(n.value)
    case Utf8String(bytes) => QuotedUtf8(if Utf8.WellFormed(bytes) then bytes else [])
    case PrintableString(s) => QuotedText(s)
    case Ia5String(s) => QuotedText(s)
    case UtcTime(_) => Formatted(n.value)
    case BitString(bits) => Text(BitsText(bits.rawBytes))
    case ContextSpecific(_) => Text("")
    case Application(_) => Text("")
    case Private(_) => Text("")
    case Other(_) => Formatted(n.value)
  }

  /** A decoded UTF8String has been repaired already, so `display_value`
      never falls back to the empty string for it. */
  lemma DecodedUtf8StringDisplaysItself(lib: Der.Library, any: Der.Any, level: nat)
    requires Der.Sound(lib)
    requires any.tag.Utf8String?
    ensures ParseAny(lib, any, level).Ok?
    ensures DisplayValue(ParseAny(lib, any, level).value) == QuotedUtf8(Utf8.Lossy(any.value))
  {
    var text := Utf8.Lossy(any.value);
    assert ParseValue(lib, any, level) == Ok(Utf8String(text));
    Utf8.LossyWellFormed(any.value);
    assert DisplayValue(NewNode(any.tag, Utf8String(text), level, false, false)) == QuotedUtf8(text);
  }

  /** The disclosure marker `get_view_content` puts before a row. */
  function Marker(n: Node): (m: string)
    ensures |m| == 2 && m[1] == ' '
    ensures m[0] == '-' <==> n.expandable && n.expanded
    ensures m[0] == '+' <==> n.expandable && !n.expanded
    ensures m[0] == ' ' <==> !n.expandable
  {
    if n.expandable then (if n.expanded then "- " else "+ ") else "  "
  }

  /** The indentation `get_view_content` puts before a row: two spaces per
      level. */
  function Indent(level: nat): (s: string)
    ensures |s| == 2 * level && forall i | 0 <= i < |s| :: s[i] == ' '
  {
    if level == 0 then "" else "  " + Indent(level - 1)
  }
}
