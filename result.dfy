/** The status/description value every operation of the core returns
    (src/common/result.hpp). */
module Results {
  import opened Text

  /** Operation status, in declaration order. */
  datatype Status =
    | UnknownErr
    | InvalidArguments
    | FileNotFoundErr
    | XmlReadErr
    | FileInitErr
    | LineReaderErr
    | AllocationErr
    | NoRowData
    | PolicyErr
    | RootDoesNotExistErr
    | NodeDoesNotExistErr
    | UnknownNodeTypeErr
    | EmptyNodeDataErr
    | InvalidDataTypeErr
    | Successful

  /** The format joining a phrase and a message. */
  const MsgSeparator: string := " with msg: "

  /** A status and an optional message. A default-constructed result is a success
      with no message. */
  datatype Result = Result(status: Status, message: string) {

    /** `Ok()` and `operator bool`. */
    predicate Ok()
      ensures Ok() <==> status.Successful?
    {
      status == Successful
    }

    /** `SetStatus`: only the status changes. */
    function SetStatus(s: Status): (r: Result)
      ensures r.status == s && r.message == message
      ensures r.Ok() <==> s.Successful?
    {
      this.(status := s)
    }

    /** `SetMessage`: only the message changes. */
    function SetMessage(m: string): (r: Result)
      ensures r.message == m && r.status == status
      ensures r.Ok() == Ok()
    {
      this.(message := m)
    }

    /** `Description()`: the status phrase, followed by the message when there is one.
        The message is read through `c_str()` and the buffer is sized one byte past
        the formatted text, so a non-empty message leaves a trailing NUL. */
    function Description(): (d: string)
      ensures StartsWith(d, Phrase(status))
      ensures message == [] ==> d == Phrase(status)
      ensures message != [] ==>
                && |d| == |Phrase(status)| + |MsgSeparator| + |CStr(message)| + 1
                && d[|Phrase(status)|..|Phrase(status)| + |MsgSeparator|] == MsgSeparator
                && d[|Phrase(status)| + |MsgSeparator|..|d| - 1] == CStr(message)
                && d[|d| - 1] == NUL
    {
      if message == [] then Phrase(status)
      else Phrase(status) + MsgSeparator + CStr(message) + [NUL]
    }
  }

  /** `Result{}`. */
  function Default(): (r: Result)
    ensures r.Ok() && r.message == []
  {
    Result(Successful, "")
  }

  /** `Result{status}`. */
  function WithStatus(s: Status): (r: Result)
    ensures r.status == s && r.message == []
  {
    Result(s, "")
  }

  /** The fixed phrase of each status. */
  function Phrase(s: Status): (p: string) {
    match s
    case Successful => "Success"
    case InvalidArguments => "Bad arguments"
    case FileNotFoundErr => "Failed to load file"
    case XmlReadErr => "Failed to parse MeSH XML document"
    case FileInitErr => "Failed to initialise line reader"
    case LineReaderErr => "Failed to read line"
    case AllocationErr => "Failed to allocate memory"
    case NoRowData => "No data was parsed for this row"
    case PolicyErr => "Failed to execute policy"
    case RootDoesNotExistErr => "Failed to find expected root node"
    case NodeDoesNotExistErr => "Failed to find expected descendant node"
    case UnknownNodeTypeErr => "Failed to resolve node type"
    case InvalidDataTypeErr => "Failed to resolve node data"
    case EmptyNodeDataErr => "Failed to resolve node data"
    case UnknownErr => "Unknown error occurred whilst processing document"
  }

  /** Two statuses share a phrase only when they are equal or are the two node-data
      errors (which do share one, by `NodeDataPhrase`). */
  lemma PhraseShared(a: Status, b: Status)
    requires Phrase(a) == Phrase(b)
    ensures a == b || NodeDataPair(a, b)
  {
    var p := Phrase(a);
    PhraseDecodes(a);
    PhraseDecodes(b);
    assert |p| == PhraseLength(a) == PhraseLength(b);
    assert [p[|p| - 2], p[|p| - 1]] == PhraseTail(a) == PhraseTail(b);
    FingerprintDistinct(a, b);
  }

  /** The node-data phrase, used by both node-data errors. */
  lemma NodeDataPhrase(s: Status)
    requires s == InvalidDataTypeErr || s == EmptyNodeDataErr
    ensures Phrase(s) == "Failed to resolve node data"
  {
  }

  /** The two statuses that share the node-data phrase. */
  predicate NodeDataPair(a: Status, b: Status) {
    || (a == InvalidDataTypeErr && b == EmptyNodeDataErr)
    || (a == EmptyNodeDataErr && b == InvalidDataTypeErr)
  }

  // Proof scaffolding for `PhraseShared`, not modelled behaviour: each phrase's length
  // and last two characters, which tell the phrases apart without comparing them whole.

  lemma FingerprintDistinct(a: Status, b: Status)
    requires PhraseLength(a) == PhraseLength(b) && PhraseTail(a) == PhraseTail(b)
    ensures a == b || NodeDataPair(a, b)
  {
    match a
    case Successful =>
    case InvalidArguments =>
    case FileNotFoundErr =>
    case XmlReadErr =>
    case FileInitErr =>
    case LineReaderErr =>
    case AllocationErr =>
    case NoRowData =>
    case PolicyErr =>
    case RootDoesNotExistErr =>
    case NodeDoesNotExistErr =>
    case UnknownNodeTypeErr =>
    case InvalidDataTypeErr =>
    case EmptyNodeDataErr =>
    case UnknownErr =>
  }

  /** Every phrase determines its status up to the shared node-data phrase: its
      length and its last two characters tell the statuses apart. */
  lemma PhraseDecodes(s: Status)
    ensures var p := Phrase(s);
            |p| == PhraseLength(s) && [p[|p| - 2], p[|p| - 1]] == PhraseTail(s)
  {
    match s
    case Successful | InvalidArguments | FileNotFoundErr | XmlReadErr | FileInitErr => FingerprintIo(s);
    case LineReaderErr | AllocationErr | NoRowData | PolicyErr | RootDoesNotExistErr => FingerprintData(s);
    case NodeDoesNotExistErr | UnknownNodeTypeErr | InvalidDataTypeErr | EmptyNodeDataErr | UnknownErr => FingerprintNode(s);
  }

  lemma FingerprintIo(s: Status)
    requires s == Successful || s == InvalidArguments || s == FileNotFoundErr || s == XmlReadErr || s == FileInitErr
    ensures var p := Phrase(s);
            |p| == PhraseLength(s) && [p[|p| - 2], p[|p| - 1]] == PhraseTail(s)
  {
    match s
    case Successful =>
    case InvalidArguments =>
    case FileNotFoundErr =>
    case XmlReadErr =>
    case FileInitErr =>
  }

  lemma FingerprintData(s: Status)
    requires s == LineReaderErr || s == AllocationErr || s == NoRowData || s == PolicyErr || s == RootDoesNotExistErr
    ensures var p := Phrase(s);
            |p| == PhraseLength(s) && [p[|p| - 2], p[|p| - 1]] == PhraseTail(s)
  {
    match s
    case LineReaderErr =>
    case AllocationErr =>
    case NoRowData =>
    case PolicyErr =>
    case RootDoesNotExistErr =>
  }

  lemma FingerprintNode(s: Status)
    requires s == NodeDoesNotExistErr || s == UnknownNodeTypeErr || s == InvalidDataTypeErr || s == EmptyNodeDataErr || s == UnknownErr
    ensures var p := Phrase(s);
            |p| == PhraseLength(s) && [p[|p| - 2], p[|p| - 1]] == PhraseTail(s)
  {
    match s
    case NodeDoesNotExistErr =>
    case UnknownNodeTypeErr =>
    case InvalidDataTypeErr =>
    case EmptyNodeDataErr =>
    case UnknownErr =>
  }

  function PhraseLength(s: Status): nat {
    match s
    case Successful => 7
    case InvalidArguments => 13
    case FileNotFoundErr => 19
    case XmlReadErr => 33
    case FileInitErr => 32
    case LineReaderErr => 19
    case AllocationErr => 25
    case NoRowData => 31
    case PolicyErr => 24
    case RootDoesNotExistErr => 33
    case NodeDoesNotExistErr => 39
    case UnknownNodeTypeErr => 27
    case InvalidDataTypeErr => 27
    case EmptyNodeDataErr => 27
    case UnknownErr => 49
  }

  function PhraseTail(s: Status): string {
    match s
    case Successful => "ss"
    case InvalidArguments => "ts"
    case FileNotFoundErr => "le"
    case XmlReadErr => "nt"
    case FileInitErr => "er"
    case LineReaderErr => "ne"
    case AllocationErr => "ry"
    case NoRowData => "ow"
    case PolicyErr => "cy"
    case RootDoesNotExistErr => "de"
    case NodeDoesNotExistErr => "de"
    case UnknownNodeTypeErr => "pe"
    case InvalidDataTypeErr => "ta"
    case EmptyNodeDataErr => "ta"
    case UnknownErr => "nt"
  }
}
