/** Descriptor-class decoding, descriptor record packing and the descriptor loop of the
    MeSH document loader (src/mesh/parser.cpp, src/mesh/parser.hpp), over an abstract
    XML tree. */
module MeshParser {
  import opened Text
  import opened Strings
  import opened Policies
  import MeshDefs

  /** `ParseResult`. */
  datatype ParseResult = AllocationFail | InvalidDataType | UnknownNodeType | Success

  /** `std::expected<T, ParseResult>`. */
  datatype Expected<T> = Value(value: T) | Unexpected(error: ParseResult)

  /** The four descriptor classes (src/mesh/constants.hpp). */
  const TopicalDescriptorClass: nat := 1
  const PublicationTypesClass: nat := 2
  const CheckTagClass: nat := 3
  const GeographicDescriptorClass: nat := 4

  /** Element and attribute names (src/mesh/constants.hpp). */
  const RecordSetNode: string := "DescriptorRecordSet"
  const RecordNode: string := "DescriptorRecord"
  const DescClassAttr: string := "DescriptorClass"
  const DescUIProp: string := "DescriptorUI"
  const DescNameProp: string := "DescriptorName"

  /** `unsigned long` is 64 bits wide. */
  const ULongRange: nat := 0x1_0000_0000_0000_0000
  const ULongMax: nat := ULongRange - 1

  /** A `uint8_t` cast keeps the low eight bits. */
  function ToU8(n: nat): (b: nat)
    ensures b < 0x100
  {
    n % 0x100
  }

  /** A `uint16_t` cast keeps the low sixteen bits. */
  function ToU16(n: nat): (h: MeshDefs.U16)
    ensures h <= n
    ensures n < 0x1_0000 ==> h == n
  {
    n % 0x1_0000
  }

  // ---------------------------------------------------------------------------
  // strtoul(s, nullptr, 0)
  // ---------------------------------------------------------------------------

  /** The value of a digit or letter in bases up to 36, and 36 for anything else. */
  function DigitValue(c: char): (v: nat)
    ensures v <= 36
    ensures '0' <= c <= '9' ==> v == c as int - '0' as int
  {
    if '0' <= c <= '9' then c as int - '0' as int
    else if 'a' <= c <= 'z' then c as int - 'a' as int + 10
    else if 'A' <= c <= 'Z' then c as int - 'A' as int + 10
    else 36
  }

  /** `base * x` for the three bases `strtoul` can pick. */
  function Scale(x: nat, base: nat): nat {
    if base == 8 then 8 * x else if base == 16 then 16 * x else 10 * x
  }

  /** Where `strtoul` is in its scan: skipping white space, at the optional sign, at
      the base prefix, or reading digits of `base` into `acc`. */
  datatype Phase =
    | Blank
    | Sign
    | Prefix(neg: bool)
    | Digits(neg: bool, base: nat, acc: nat)

  function Rank(at: Phase): nat {
    match at
    case Blank => 3
    case Sign => 2
    case Prefix(_) => 1
    case Digits(_, _, _) => 0
  }

  /** The scan of `strtoul(s, nullptr, 0)` from phase `at`. A `0x`/`0X` prefix selects
      hexadecimal, another leading `0` octal and anything else decimal; the first
      character that is not a digit of the base ends the number. */
  function Scan(s: string, at: Phase): (v: nat)
    decreases |s|, Rank(at)
  {
    match at
    case Blank =>
      if s != [] && !NotWhitespace(s[0]) then Scan(s[1..], Blank) else Scan(s, Sign)
    case Sign =>
      if s != [] && (s[0] == '-' || s[0] == '+') then Scan(s[1..], Prefix(s[0] == '-'))
      else Scan(s, Prefix(false))
    case Prefix(neg) =>
      if |s| >= 2 && s[0] == '0' && (s[1] == 'x' || s[1] == 'X') then Scan(s[2..], Digits(neg, 16, 0))
      else if s != [] && s[0] == '0' then Scan(s, Digits(neg, 8, 0))
      else Scan(s, Digits(neg, 10, 0))
    case Digits(neg, base, acc) =>
      if s != [] && DigitValue(s[0]) < base then Scan(s[1..], Digits(neg, base, Scale(acc, base) + DigitValue(s[0])))
      else Finish(neg, acc)
  }

  /** The value `strtoul` returns for magnitude `m`: past `ULONG_MAX` it saturates,
      and a negated value wraps modulo 2^64. */
  function Finish(neg: bool, m: nat): (v: nat)
    ensures v <= ULongMax
  {
    if m > ULongMax then ULongMax
    else if neg && m > 0 then ULongRange - m
    else m
  }

  /** `strtoul(s, nullptr, 0)`. No digits at all read as 0. */
  function StrToUL(s: string): nat {
    Scan(s, Blank)
  }

  /** The value of digits `d` of `base` appended to `acc`, most significant first. */
  function Horner(acc: nat, d: string, base: nat): nat
    decreases |d|
  {
    if d == [] then acc else Horner(Scale(acc, base) + DigitValue(d[0]), d[1..], base)
  }

  /** Reading a run of digits to its end gives their value. */
  lemma {:induction false} ScanDigits(d: string, neg: bool, base: nat, acc: nat)
    requires forall i :: 0 <= i < |d| ==> DigitValue(d[i]) < base
    ensures Scan(d, Digits(neg, base, acc)) == Finish(neg, Horner(acc, d, base))
  {
    if d != [] {
      ScanDigits(d[1..], neg, base, Scale(acc, base) + DigitValue(d[0]));
    }
  }

  /** One more digit at the end scales the value and adds it. */
  lemma {:induction false} HornerSnoc(acc: nat, x: string, c: char, base: nat)
    ensures Horner(acc, x + [c], base) == Scale(Horner(acc, x, base), base) + DigitValue(c)
    decreases |x|
  {
    if x != [] {
      assert (x + [c])[1..] == x[1..] + [c];
      HornerSnoc(Scale(acc, base) + DigitValue(x[0]), x[1..], c, base);
    }
  }

  /** A decimal rendering reads back as the number. */
  lemma {:induction false} HornerOfDecimal(n: nat)
    ensures Horner(0, NatToString(n), 10) == n
  {
    if n >= 10 {
      HornerOfDecimal(n / 10);
      HornerSnoc(0, NatToString(n / 10), Digit(n % 10), 10);
    }
  }

  /** A decimal rendering starts with a non-zero digit unless it is "0". */
  lemma {:induction false} LeadingDigit(n: nat)
    requires n >= 1
    ensures NatToString(n)[0] != '0'
  {
    if n >= 10 {
      LeadingDigit(n / 10);
    }
  }

  /** The decimal digits of `n`, read from the sign phase on. */
  lemma ScanDecimal(n: nat, neg: bool)
    ensures Scan(NatToString(n), Prefix(neg)) == Finish(neg, n)
  {
    var s := NatToString(n);
    HornerOfDecimal(n);
    if n == 0 {
      assert s == "0";
      assert Scan(s, Prefix(neg)) == Scan(s, Digits(neg, 8, 0));
      assert Scan(s, Digits(neg, 8, 0)) == Scan([], Digits(neg, 8, 0));
    } else {
      LeadingDigit(n);
      assert Scan(s, Prefix(neg)) == Scan(s, Digits(neg, 10, 0));
      ScanDigits(s, neg, 10, 0);
    }
  }

  /** `strtoul` reads every decimal rendering of an `unsigned long` back exactly. */
  lemma StrToULOfDecimal(n: nat)
    requires n <= ULongMax
    ensures StrToUL(NatToString(n)) == n
  {
    var s := NatToString(n);
    assert NotWhitespace(s[0]) && s[0] != '-' && s[0] != '+';
    assert Scan(s, Blank) == Scan(s, Sign) == Scan(s, Prefix(false));
    ScanDecimal(n, false);
  }

  /** A minus sign before a decimal number negates it modulo 2^64. */
  lemma StrToULOfNegated(n: nat)
    requires 1 <= n <= ULongMax
    ensures StrToUL("-" + NatToString(n)) == ULongRange - n
  {
    var s := "-" + NatToString(n);
    assert s[1..] == NatToString(n);
    assert Scan(s, Blank) == Scan(s, Sign) == Scan(s[1..], Prefix(true));
    ScanDecimal(n, true);
  }

  /** Text with no digit after its white space and sign reads as 0. */
  lemma StrToULNoDigits(s: string)
    requires s != [] && NotWhitespace(s[0]) && s[0] != '+' && s[0] != '-'
    requires DigitValue(s[0]) >= 10
    ensures StrToUL(s) == 0
  {
    assert s[0] != '0';
    assert Scan(s, Blank) == Scan(s, Sign) == Scan(s, Prefix(false)) == Scan(s, Digits(false, 10, 0));
  }

  // ---------------------------------------------------------------------------
  // tryGetDescriptorClass
  // ---------------------------------------------------------------------------

  /** `tryGetDescriptorClass`: an empty attribute is refused; otherwise the number is
      read with `strtoul`, cut to its low byte, and refused above the geographic
      class. Nothing is refused below the topical class. */
  function TryGetDescriptorClass(dcid: string): (r: Expected<nat>)
    ensures r.Unexpected? ==> r.error == InvalidDataType
    ensures (dcid == [] || dcid[0] == NUL) ==> r.Unexpected?
    ensures r.Value? ==> r.value <= GeographicDescriptorClass
  {
    if dcid == [] || dcid[0] == NUL then Unexpected(InvalidDataType)
    else
      var value := ToU8(StrToUL(dcid));
      if value > GeographicDescriptorClass then Unexpected(InvalidDataType) else Value(value)
  }

  /** A class written in decimal is accepted exactly when its low byte is at most 4,
      and then decodes to that byte: "260" is class 4, "5" is refused. */
  lemma DecimalClass(n: nat)
    requires n <= ULongMax
    ensures TryGetDescriptorClass(NatToString(n)) ==
              if n % 0x100 <= GeographicDescriptorClass then Value(n % 0x100) else Unexpected(InvalidDataType)
  {
    StrToULOfDecimal(n);
    assert '0' <= NatToString(n)[0] <= '9';
  }

  /** A negative class wraps modulo 2^64 before its low byte is taken, so "-252"
      is accepted as class 4 and "-1" is refused. */
  lemma NegatedClass(n: nat)
    requires 1 <= n <= ULongMax
    ensures var b := (ULongRange - n) % 0x100;
            TryGetDescriptorClass("-" + NatToString(n)) ==
              if b <= GeographicDescriptorClass then Value(b) else Unexpected(InvalidDataType)
  {
    StrToULOfNegated(n);
  }

  /** A class attribute that does not start with a number is accepted as class 0. */
  lemma NonNumericClass(dcid: string)
    requires dcid != [] && dcid[0] != NUL && NotWhitespace(dcid[0])
    requires dcid[0] != '+' && dcid[0] != '-' && DigitValue(dcid[0]) >= 10
    ensures TryGetDescriptorClass(dcid) == Value(0)
  {
    StrToULNoDigits(dcid);
  }

  // ---------------------------------------------------------------------------
  // The XML tree, as pugixml presents it
  // ---------------------------------------------------------------------------

  /** An XML node: an element with attributes and children, or character data. */
  datatype Node =
    | Element(name: string, attrs: map<string, string>, children: seq<Node>)
    | Pcdata(text: string)

  /** `name()`: character data has the empty name. */
  function NameOf(n: Node): string {
    if n.Element? then n.name else ""
  }

  function ChildrenOf(n: Node): seq<Node> {
    if n.Element? then n.children else []
  }

  /** The first node of `cs` with the given name. */
  function FirstNamed(cs: seq<Node>, name: string): (r: Option<Node>)
    ensures r.Some? ==> r.value in cs && NameOf(r.value) == name
    ensures r.None? ==> forall i :: 0 <= i < |cs| ==> NameOf(cs[i]) != name
  {
    if cs == [] then None
    else if NameOf(cs[0]) == name then Some(cs[0])
    else FirstNamed(cs[1..], name)
  }

  /** The text of the first character-data node of `cs`, empty when there is none. */
  function FirstText(cs: seq<Node>): string {
    if cs == [] then ""
    else if cs[0].Pcdata? then cs[0].text
    else FirstText(cs[1..])
  }

  /** `child(name)`, where `None` is pugixml's empty handle. */
  function Child(n: Option<Node>, name: string): Option<Node> {
    if n.None? then None else FirstNamed(ChildrenOf(n.value), name)
  }

  /** `first_child()`. */
  function FirstChild(n: Option<Node>): Option<Node> {
    if n.None? || ChildrenOf(n.value) == [] then None else Some(ChildrenOf(n.value)[0])
  }

  /** `child_value()`: empty for the empty handle. */
  function ChildValue(n: Option<Node>): string {
    if n.None? then "" else FirstText(ChildrenOf(n.value))
  }

  /** `attribute(key).value()`: empty when the attribute is missing. */
  function AttributeValue(n: Node, key: string): string {
    if n.Element? && key in n.attrs then n.attrs[key] else ""
  }

  // ---------------------------------------------------------------------------
  // parseDescriptorRecord
  // ---------------------------------------------------------------------------

  /** `DescriptorRecord` (src/mesh/parser.hpp): both pointers are offsets into `buf`. */
  datatype DescriptorRecord = DescriptorRecord(
    buf: array<char>,
    namePtr: nat,
    uidPtr: nat,
    nameLen: MeshDefs.U16,
    uidLen: MeshDefs.U16,
    dcid: nat)

  /** The descriptor's uid, as `strlen` sees the `DescriptorUI` text. */
  function DescriptorUid(node: Node): string {
    CStr(ChildValue(Child(Some(node), DescUIProp)))
  }

  /** The descriptor's name: the text of the first child of `DescriptorName`. */
  function DescriptorName(node: Node): string {
    CStr(ChildValue(FirstChild(Child(Some(node), DescNameProp))))
  }

  /** The buffer `memcpy` fills: the first `uidLen` bytes of the uid and its
      terminator, then the first `nameLen` bytes of the name and its terminator, each
      length being strlen + 1 cut to sixteen bits. */
  function Packed(uid: string, name: string): (p: string)
    ensures |p| == ToU16(|uid| + 1) + ToU16(|name| + 1)
  {
    (uid + [NUL])[..ToU16(|uid| + 1)] + (name + [NUL])[..ToU16(|name| + 1)]
  }

  /** What `parseDescriptorRecord` returns: a bad class first, then a refused
      allocation. */
  function RecordOutcome(node: Node, granted: bool): (res: ParseResult)
    ensures res != UnknownNodeType
    ensures res == Success <==>
              TryGetDescriptorClass(AttributeValue(node, DescClassAttr)).Value? && granted
    ensures res == AllocationFail ==> !granted
  {
    if TryGetDescriptorClass(AttributeValue(node, DescClassAttr)).Unexpected? then InvalidDataType
    else if granted then Success
    else AllocationFail
  }

  /** Uid and name shorter than 65535 bytes read back from the packed buffer as C
      strings at offsets 0 and `uidLen`, each followed by its terminator. */
  lemma PackedReadsBack(uid: string, name: string)
    requires NUL !in uid && NUL !in name
    requires |uid| < 0xFFFF && |name| < 0xFFFF
    ensures var p := Packed(uid, name);
            && ToU16(|uid| + 1) == |uid| + 1 && ToU16(|name| + 1) == |name| + 1
            && p == uid + [NUL] + name + [NUL]
            && CStr(p) == uid && CStr(p[|uid| + 1..]) == name
  {
    var u, n := uid + [NUL], name + [NUL];
    assert u[..|uid| + 1] == u && n[..|name| + 1] == n;
    var p := Packed(uid, name);
    assert p == uid + ([NUL] + n);
    CStrOfClean(uid, [NUL] + n);
    assert p[|uid| + 1..] == n;
    CStrOfClean(name, [NUL]);
  }

  /** A uid of exactly 65535 bytes makes `uidLen` wrap to 0: nothing of the uid is
      copied and the name starts the buffer. */
  lemma LongUidWraps(uid: string, name: string)
    requires |uid| == 0xFFFF
    ensures ToU16(|uid| + 1) == 0
    ensures Packed(uid, name) == (name + [NUL])[..ToU16(|name| + 1)]
  {
  }

  /** `parseDescriptorRecord`: decode the class, measure uid and name, ask the pool
      for both, and copy them in. `granted` is the pool's answer. */
  method ParseDescriptorRecord(node: Node, granted: bool) returns (res: ParseResult, rec: Option<DescriptorRecord>)
    ensures res == RecordOutcome(node, granted)
    ensures rec.Some? <==> res == Success
    ensures rec.Some? ==>
              var r := rec.value;
              var uid, name := DescriptorUid(node), DescriptorName(node);
              && fresh(r.buf)
              && r.buf[..] == Packed(uid, name)
              && r.uidLen == ToU16(|uid| + 1) && r.nameLen == ToU16(|name| + 1)
              && r.uidPtr == 0 && r.namePtr == r.uidLen
              && TryGetDescriptorClass(AttributeValue(node, DescClassAttr)) == Value(r.dcid)
  {
    var dcid := TryGetDescriptorClass(AttributeValue(node, DescClassAttr));
    if dcid.Unexpected? {
      return InvalidDataType, None;
    }
    var uid := DescriptorUid(node);
    var name := DescriptorName(node);
    var nameLen: nat := ToU16(|name| + 1);
    var uidLen: nat := ToU16(|uid| + 1);
    if !granted {
      return AllocationFail, None;
    }
    var buf := PackBuffer(uid, name, uidLen, nameLen);
    rec := Some(DescriptorRecord(buf, uidLen, 0, nameLen, uidLen, dcid.value));
    res := Success;
  }

  /** The two `memcpy`s into a fresh buffer of `uidLen + nameLen` bytes. */
  method PackBuffer(uid: string, name: string, uidLen: nat, nameLen: nat) returns (buf: array<char>)
    requires uidLen == ToU16(|uid| + 1) && nameLen == ToU16(|name| + 1)
    ensures fresh(buf) && buf[..] == Packed(uid, name)
  {
    buf := new char[uidLen + nameLen];
    Copy(buf, 0, (uid + [NUL])[..uidLen]);
    Copy(buf, uidLen, (name + [NUL])[..nameLen]);
    assert buf[..] == buf[..uidLen] + buf[uidLen..uidLen + nameLen];
  }

  // ---------------------------------------------------------------------------
  // loadFile
  // ---------------------------------------------------------------------------

  /** Whether the pool grants allocation number `k`: `grants` lists the pool's
      answers in order, and past its end the pool is exhausted. */
  function Granted(grants: seq<bool>, k: nat): bool {
    k < |grants| && grants[k]
  }

  /** The descriptor loop from allocation number `k` on: other children are skipped,
      and the first record that does not parse ends it with failure. */
  function Visit(nodes: seq<Node>, grants: seq<bool>, k: nat): bool
    decreases |nodes|
  {
    if nodes == [] then true
    else if NameOf(nodes[0]) != RecordNode then Visit(nodes[1..], grants, k)
    else RecordOutcome(nodes[0], Granted(grants, k)) == Success && Visit(nodes[1..], grants, k + 1)
  }

  /** The bytes the pool hands out before the loop stops. */
  function Spent(nodes: seq<Node>, grants: seq<bool>, k: nat): nat
    decreases |nodes|
  {
    if nodes == [] then 0
    else if NameOf(nodes[0]) != RecordNode then Spent(nodes[1..], grants, k)
    else if RecordOutcome(nodes[0], Granted(grants, k)) != Success then 0
    else PackedSize(nodes[0]) + Spent(nodes[1..], grants, k + 1)
  }

  function PackedSize(node: Node): nat {
    |Packed(DescriptorUid(node), DescriptorName(node))|
  }

  /** What `loadFile` returns for a file that exists (`found`) and parses to `doc`
      (`None` when pugixml fails). */
  function Loads(found: bool, doc: Option<Node>, grants: seq<bool>): bool {
    && found
    && doc.Some?
    && Root(doc).Some?
    && Visit(ChildrenOf(Root(doc).value), grants, 0)
  }

  /** The `DescriptorRecord` children, in order. */
  function RecordChildren(nodes: seq<Node>): (rs: seq<Node>)
    ensures forall i :: 0 <= i < |rs| ==> NameOf(rs[i]) == RecordNode
  {
    if nodes == [] then []
    else if NameOf(nodes[0]) == RecordNode then [nodes[0]] + RecordChildren(nodes[1..])
    else RecordChildren(nodes[1..])
  }

  /** Only the `DescriptorRecord` children decide the loop: other children change
      neither the verdict nor the pool. */
  lemma {:induction false} VisitOnlyRecords(nodes: seq<Node>, grants: seq<bool>, k: nat)
    ensures Visit(nodes, grants, k) == Visit(RecordChildren(nodes), grants, k)
    ensures Spent(nodes, grants, k) == Spent(RecordChildren(nodes), grants, k)
  {
    if nodes != [] {
      VisitOnlyRecords(nodes[1..], grants, k);
      VisitOnlyRecords(nodes[1..], grants, k + 1);
      if NameOf(nodes[0]) == RecordNode {
        assert ([nodes[0]] + RecordChildren(nodes[1..]))[1..] == RecordChildren(nodes[1..]);
      }
    }
  }

  /** A record that parses when the pool's answer to allocation `k` is `Granted`. */
  predicate Accepted(n: Node, grants: seq<bool>, k: nat) {
    TryGetDescriptorClass(AttributeValue(n, DescClassAttr)).Value? && Granted(grants, k)
  }

  /** Every record of `rs` parses, the first one with allocation number `k`. */
  predicate AllAccepted(rs: seq<Node>, grants: seq<bool>, k: nat) {
    forall i :: 0 <= i < |rs| ==> Accepted(rs[i], grants, k + i)
  }

  /** Over records alone the loop succeeds exactly when every record's class decodes
      and the pool grants each of their allocations. */
  lemma {:induction false} VisitAccepts(rs: seq<Node>, grants: seq<bool>, k: nat)
    requires forall i :: 0 <= i < |rs| ==> NameOf(rs[i]) == RecordNode
    ensures Visit(rs, grants, k) <==> AllAccepted(rs, grants, k)
  {
    if rs != [] {
      var tail := rs[1..];
      VisitAccepts(tail, grants, k + 1);
      assert Visit(rs, grants, k) == (Accepted(rs[0], grants, k) && Visit(tail, grants, k + 1));
      if Visit(rs, grants, k) {
        forall i | 0 <= i < |rs|
          ensures Accepted(rs[i], grants, k + i)
        {
          if i > 0 {
            assert tail[i - 1] == rs[i];
          }
        }
      }
      if AllAccepted(rs, grants, k) {
        forall j | 0 <= j < |tail|
          ensures Accepted(tail[j], grants, k + 1 + j)
        {
          assert tail[j] == rs[j + 1];
        }
      }
    }
  }

  /** The `DescriptorRecordSet` root of a parsed document. */
  function Root(doc: Option<Node>): Option<Node> {
    Child(doc, RecordSetNode)
  }

  /** `loadFile` succeeds exactly when the file exists, parses, has a
      `DescriptorRecordSet` root, and every `DescriptorRecord` below it has a
      decodable class and gets its allocation. */
  lemma LoadsExactly(found: bool, doc: Option<Node>, grants: seq<bool>)
    ensures Loads(found, doc, grants) <==>
              && found && doc.Some? && Root(doc).Some?
              && AllAccepted(RecordChildren(ChildrenOf(Root(doc).value)), grants, 0)
  {
    if found && doc.Some? && Root(doc).Some? {
      var nodes := ChildrenOf(Root(doc).value);
      VisitOnlyRecords(nodes, grants, 0);
      VisitAccepts(RecordChildren(nodes), grants, 0);
    }
  }

  /** `MeshDocument`: the descriptor map, which the loader never fills, and the pool
      the descriptor buffers are carved from. */
  class MeshDocument {
    var records: map<string, DescriptorRecord>
    /** `bytes_allocated()` of the pool. */
    var poolBytes: nat

    /** The constructor creates a fresh pool, then loads the file and ignores the
        verdict: the document always starts with no records. */
    constructor (found: bool, doc: Option<Node>, grants: seq<bool>)
      ensures records == map[]
      ensures poolBytes == Spent(LoadedNodes(found, doc), grants, 0)
    {
      records := map[];
      poolBytes := 0;
      new;
      var loaded := LoadFile(found, doc, grants);
    }

    /** `loadFile`: the children of the root that the loop walks, none when the
        loop is never reached. */
    static function LoadedNodes(found: bool, doc: Option<Node>): seq<Node> {
      if found && Root(doc).Some? then ChildrenOf(Root(doc).value)
      else []
    }

    /** `loadFile`: the verdict is `Loads`, the pool grows by the buffers of the
        records parsed before the loop stops, and no record is inserted. */
    method LoadFile(found: bool, doc: Option<Node>, grants: seq<bool>) returns (ok: bool)
      modifies this
      ensures ok == Loads(found, doc, grants)
      ensures poolBytes == old(poolBytes) + Spent(LoadedNodes(found, doc), grants, 0)
      ensures records == old(records)
    {
      if !found {
        return false;
      }
      if doc.None? {
        return false;
      }
      var root := Root(doc);
      if root.None? {
        return false;
      }
      var nodes := ChildrenOf(root.value);
      var k := 0;
      var i := 0;
      while i < |nodes|
        invariant i <= |nodes|
        invariant Visit(nodes, grants, 0) == Visit(nodes[i..], grants, k)
        invariant old(poolBytes) <= poolBytes
        invariant Spent(nodes, grants, 0) == poolBytes - old(poolBytes) + Spent(nodes[i..], grants, k)
        invariant records == old(records)
      {
        var node := nodes[i];
        assert nodes[i..][1..] == nodes[i + 1..];
        if NameOf(node) != RecordNode {
          i := i + 1;
          continue;
        }
        var res, rec := ParseDescriptorRecord(node, Granted(grants, k));
        if res != Success {
          return false;
        }
        poolBytes := poolBytes + rec.value.buf.Length;
        k := k + 1;
        i := i + 1;
      }
      ok := true;
    }
  }
}
