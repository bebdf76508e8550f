/** MeSH node kinds, categories and modifiers, the lookup tables the MeSH parser is
    driven by, and the one-line text form of a MeSH record (src/mesh/defs.hpp). */
module MeshDefs {
  import opened Text
  import opened Rows

  /** A `uint16_t` length. */
  type U16 = n: nat | n < 0x1_0000

  /** `MeshType`: the MeSH XML node kinds, in declaration order. */
  datatype MeshType = UnknownType | DescriptorRecord | Qualifier | Concept | Term
  {
    /** `ToInteger`: the enumerator's ordinal, which is its place in the declaration. */
    function ToInteger(): (n: nat)
      ensures n < |MeshTypes| && MeshTypes[n] == this
    {
      match this
      case UnknownType => 0
      case DescriptorRecord => 1
      case Qualifier => 2
      case Concept => 3
      case Term => 4
    }
  }

  const MeshTypes: seq<MeshType> := [UnknownType, DescriptorRecord, Qualifier, Concept, Term]

  /** `MeshCategory`: the category a node's attributes put it in, in declaration order. */
  datatype MeshCategory =
    | UnknownCategory
    | DescriptorTopical
    | DescriptorPublication
    | DescriptorCheckTag
    | DescriptorGeographic
    | ConceptNarrower
    | ConceptPreferred
    | TermSupplementary
    | TermConceptPref
    | TermDescriptorPref
  {
    function ToInteger(): (n: nat)
      ensures n < |MeshCategories| && MeshCategories[n] == this
    {
      match this
      case UnknownCategory => 0
      case DescriptorTopical => 1
      case DescriptorPublication => 2
      case DescriptorCheckTag => 3
      case DescriptorGeographic => 4
      case ConceptNarrower => 5
      case ConceptPreferred => 6
      case TermSupplementary => 7
      case TermConceptPref => 8
      case TermDescriptorPref => 9
    }
  }

  const MeshCategories: seq<MeshCategory> :=
    [UnknownCategory, DescriptorTopical, DescriptorPublication, DescriptorCheckTag,
     DescriptorGeographic, ConceptNarrower, ConceptPreferred, TermSupplementary,
     TermConceptPref, TermDescriptorPref]

  /** `MeshModifier`: a `<Term/>`'s lexical category, in declaration order. */
  datatype MeshModifier =
    | UnknownModifier
    | TermLexNon
    | TermLexAbb
    | TermLexAbx
    | TermLexAcr
    | TermLexAcx
    | TermLexEpo
    | TermLexLab
    | TermLexTrd
    | TermLexNam
  {
    function ToInteger(): (n: nat)
      ensures n < |MeshModifiers| && MeshModifiers[n] == this
    {
      match this
      case UnknownModifier => 0
      case TermLexNon => 1
      case TermLexAbb => 2
      case TermLexAbx => 3
      case TermLexAcr => 4
      case TermLexAcx => 5
      case TermLexEpo => 6
      case TermLexLab => 7
      case TermLexTrd => 8
      case TermLexNam => 9
    }
  }

  const MeshModifiers: seq<MeshModifier> :=
    [UnknownModifier, TermLexNon, TermLexAbb, TermLexAbx, TermLexAcr, TermLexAcx,
     TermLexEpo, TermLexLab, TermLexTrd, TermLexNam]

  /** The inverse of `MeshType.ToInteger`: defined exactly on the ordinals in use. */
  function TypeOfInteger(n: nat): (t: Option<MeshType>)
    ensures t.Some? <==> n < 5
    ensures t.Some? ==> t.value.ToInteger() == n
  {
    if n < |MeshTypes| then Some(MeshTypes[n]) else None
  }

  function CategoryOfInteger(n: nat): (c: Option<MeshCategory>)
    ensures c.Some? <==> n < 10
    ensures c.Some? ==> c.value.ToInteger() == n
  {
    if n < |MeshCategories| then Some(MeshCategories[n]) else None
  }

  function ModifierOfInteger(n: nat): (m: Option<MeshModifier>)
    ensures m.Some? <==> n < 10
    ensures m.Some? ==> m.value.ToInteger() == n
  {
    if n < |MeshModifiers| then Some(MeshModifiers[n]) else None
  }

  /** `MeshFields`: how the uid and name of one node kind are found. */
  datatype MeshFields = MeshFields(
    uidField: string,
    nameField: Option<string>,
    nodeType: MeshType,
    isNamedField: bool,
    isEncapsulated: bool)

  /** `kNodeFields`. */
  const NodeFields: seq<MeshFields> := [
    MeshFields("DescriptorUI", Some("DescriptorName"), DescriptorRecord, true, false),
    MeshFields("QualifierUI", Some("QualifierName"), Qualifier, true, true),
    MeshFields("ConceptUI", Some("ConceptName"), Concept, true, false),
    MeshFields("TermUI", None, Term, false, false)
  ]

  /** Entry `i` of `kNodeFields` describes the node kind of ordinal `i + 1`, so each
      known kind has exactly one entry; a kind has a name field exactly when it is
      flagged as named, only the Term has none, and only the Qualifier is
      encapsulated. */
  lemma NodeFieldsShape()
    ensures |NodeFields| == |MeshTypes| - 1
    ensures forall i :: 0 <= i < |NodeFields| ==> NodeFields[i].nodeType.ToInteger() == i + 1
    ensures forall i :: 0 <= i < |NodeFields| ==>
              && (NodeFields[i].isNamedField <==> NodeFields[i].nameField.Some?)
              && (NodeFields[i].isNamedField <==> NodeFields[i].nodeType != Term)
              && (NodeFields[i].isEncapsulated <==> NodeFields[i].nodeType == Qualifier)
    ensures NodeFields[3].uidField == "TermUI"
  {
  }

  /** `kNodeTypes`: XML element names to node kinds. */
  const NodeTypes: map<string, MeshType> := map[
    "DescriptorRecord" := DescriptorRecord,
    "AllowableQualifier" := Qualifier,
    "Concept" := Concept,
    "Term" := Term
  ]

  /** The XML element each known node kind is read from. */
  function ElementName(t: MeshType): string
    requires t != UnknownType
  {
    match t
    case DescriptorRecord => "DescriptorRecord"
    case Qualifier => "AllowableQualifier"
    case Concept => "Concept"
    case Term => "Term"
  }

  /** A lookup in `kNodeTypes`: it knows exactly the four element names, each
      naming a different kind, and never yields the unknown kind. */
  function NodeTypeOf(name: string): (t: Option<MeshType>)
    ensures t.Some? ==> t.value != UnknownType && ElementName(t.value) == name
    ensures t.None? ==> forall u: MeshType :: u != UnknownType ==> ElementName(u) != name
  {
    if name in NodeTypes then Some(NodeTypes[name]) else None
  }

  /** `kMeshModifiers`: a term's lexical-category code to its modifier. */
  const ModifierCodes: map<string, MeshModifier> := map[
    "NON" := TermLexNon,
    "ABB" := TermLexAbb,
    "ABX" := TermLexAbx,
    "ACR" := TermLexAcr,
    "ACX" := TermLexAcx,
    "EPO" := TermLexEpo,
    "LAB" := TermLexLab,
    "TRD" := TermLexTrd,
    "NAM" := TermLexNam
  ]

  /** The lexical-category code of each known modifier. */
  function ModifierCode(m: MeshModifier): string
    requires m != UnknownModifier
  {
    match m
    case TermLexNon => "NON"
    case TermLexAbb => "ABB"
    case TermLexAbx => "ABX"
    case TermLexAcr => "ACR"
    case TermLexAcx => "ACX"
    case TermLexEpo => "EPO"
    case TermLexLab => "LAB"
    case TermLexTrd => "TRD"
    case TermLexNam => "NAM"
  }

  /** A lookup in `kMeshModifiers`: the nine codes and the nine known modifiers
      correspond one to one, and any other code is absent. */
  function ModifierOf(code: string): (m: Option<MeshModifier>)
    ensures m.Some? ==> m.value != UnknownModifier && ModifierCode(m.value) == code
    ensures m.None? ==> forall u: MeshModifier :: u != UnknownModifier ==> ModifierCode(u) != code
  {
    if code in ModifierCodes then Some(ModifierCodes[code]) else None
  }

  /** `MeshRecord`: a uid and a name packed into one buffer, the parent's uid when
      there is one, and the node's kind, category and modifier. The name starts one
      byte past the uid, after its terminator. */
  datatype MeshRecord = MeshRecord(
    buf: string,
    parentUid: Option<string>,
    uidLen: U16,
    nameLen: U16,
    nodeType: MeshType,
    category: MeshCategory,
    modifier: MeshModifier)
  {
    /** Both views lie inside the buffer. */
    predicate InBounds() {
      uidLen + 1 + nameLen <= |buf|
    }

    function Uid(): string
      requires InBounds()
    {
      buf[..uidLen]
    }

    function Name(): string
      requires InBounds()
    {
      buf[uidLen + 1..uidLen + 1 + nameLen]
    }

    /** The parent's uid read as a C string, empty without a parent. */
    function Parent(): string {
      match parentUid
      case None => []
      case Some(p) => CStr(p)
    }
  }

  /** The five `|`-terminated fields of a record line. */
  function LineFields(r: MeshRecord): (fs: seq<string>)
    requires r.InBounds()
    ensures |fs| == 5
  {
    [r.Uid(), r.Name(), r.Parent(),
     NatToString(r.nodeType.ToInteger()), NatToString(r.category.ToInteger())]
  }

  /** `operator<<`: `uid|name|parent|type|category|modifier` and a newline, the three
      enumerators written as their decimal ordinals. */
  function Serialize(r: MeshRecord): string
    requires r.InBounds()
  {
    Join(LineFields(r), '|') + (NatToString(r.modifier.ToInteger()) + "\n")
  }

  /** The fields of one record line, as a reader of the output recovers them. */
  datatype RecordLine = RecordLine(
    uid: string,
    name: string,
    parent: string,
    nodeType: MeshType,
    category: MeshCategory,
    modifier: MeshModifier)

  /** A one-digit ordinal. */
  function DecodeOrdinal(s: string): (n: Option<nat>)
    ensures n.Some? ==> n.value < 10
  {
    if |s| == 1 && '0' <= s[0] <= '9' then Some(s[0] as int - '0' as int) else None
  }

  /** Reads one record line back: five `|`-terminated fields, then the modifier's
      ordinal and the newline. */
  function ReadRecordLine(line: string): Option<RecordLine> {
    var fs := Fields(line, '|');
    var rest := Rest(line, '|');
    if |fs| != 5 || rest == [] || rest[|rest| - 1] != '\n' then None
    else RecordOf(fs, rest[..|rest| - 1])
  }

  /** The record named by the five fields and the modifier's text. */
  function RecordOf(fs: seq<string>, last: string): Option<RecordLine>
    requires |fs| == 5
  {
    var t, c, m := TypeOfText(fs[3]), CategoryOfText(fs[4]), ModifierOfText(last);
    if t.Some? && c.Some? && m.Some? then Some(RecordLine(fs[0], fs[1], fs[2], t.value, c.value, m.value))
    else None
  }

  function TypeOfText(s: string): Option<MeshType> {
    if DecodeOrdinal(s).Some? then TypeOfInteger(DecodeOrdinal(s).value) else None
  }

  function CategoryOfText(s: string): Option<MeshCategory> {
    if DecodeOrdinal(s).Some? then CategoryOfInteger(DecodeOrdinal(s).value) else None
  }

  function ModifierOfText(s: string): Option<MeshModifier> {
    if DecodeOrdinal(s).Some? then ModifierOfInteger(DecodeOrdinal(s).value) else None
  }

  /** A text field a reader can split off: no separator, no leading newline. */
  predicate Plain(s: string) {
    '|' !in s && (s == [] || s[0] != '\n')
  }

  /** Reading a serialised record gives back its uid, name, parent and the three
      enumerators, provided the three text fields are plain. */
  lemma SerializeReadsBack(r: MeshRecord)
    requires r.InBounds()
    requires Plain(r.Uid()) && Plain(r.Name()) && Plain(r.Parent())
    ensures ReadRecordLine(Serialize(r)) ==
              Some(RecordLine(r.Uid(), r.Name(), r.Parent(), r.nodeType, r.category, r.modifier))
  {
    var m := r.modifier.ToInteger();
    var fs := LineFields(r);
    var tail := NatToString(m) + "\n";
    OrdinalText(r.nodeType.ToInteger());
    OrdinalText(r.category.ToInteger());
    OrdinalText(m);
    assert forall k :: 0 <= k < |fs| ==> Plain(fs[k]);
    FieldsOfJoin(fs, '|', tail);
    var line := Serialize(r);
    assert Fields(line, '|') == fs && Rest(line, '|') == tail;
    assert TypeOfText(fs[3]) == Some(r.nodeType);
    assert CategoryOfText(fs[4]) == Some(r.category);
    assert ModifierOfText(NatToString(m)) == Some(r.modifier);
    assert RecordOf(fs, NatToString(m)) ==
             Some(RecordLine(r.Uid(), r.Name(), r.Parent(), r.nodeType, r.category, r.modifier));
    ReadSplit(line, fs, NatToString(m));
  }

  /** A line that splits into five fields and a newline-terminated last field reads
      as the record those fields name. */
  lemma ReadSplit(line: string, fs: seq<string>, last: string)
    requires |fs| == 5 && Fields(line, '|') == fs && Rest(line, '|') == last + "\n"
    ensures ReadRecordLine(line) == RecordOf(fs, last)
  {
    assert (last + "\n")[..|last|] == last;
  }

  /** A one-digit ordinal is written as a single digit that reads back as itself. */
  lemma OrdinalText(n: nat)
    requires n < 10
    ensures NatToString(n) == [Digit(n)] && Plain(NatToString(n))
    ensures DecodeOrdinal(NatToString(n)) == Some(n)
  {
  }
}
