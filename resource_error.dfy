/**
 * The error record that DWS resources carry in their status
 * (api/v1alpha2/resource_error.go): a user message, a debug message, a
 * type and a severity, built by chained `With*` calls that change the
 * record in place and return it.
 */
module ResourceErrors {
  import opened GoStrings

  /** How severe an error is: Minor will likely succeed on retry, Major may, Fatal never will. */
  datatype Severity = Minor | Major | Fatal {
    function Name(): string {
      match this
      case Minor => "Minor"
      case Major => "Major"
      case Fatal => "Fatal"
    }
  }

  /** Whether an error is the system's own or the user's. */
  datatype ErrorType = Internal | User {
    function Name(): string {
      match this
      case Internal => "Internal"
      case User => "User"
    }
  }

  /** The fields of a ResourceErrorInfo at one moment. */
  datatype Info = Info(userMessage: string, debugMessage: string, errType: ErrorType, severity: Severity)

  /** A Go `error`: either a *ResourceErrorInfo (seen through its fields) or any other error with its text. */
  datatype GoError = Resource(info: Info) | Plain(text: string)

  /** What NewResourceError builds from its formatted text. */
  function Fresh(debug: string): (r: Info)
    ensures r.userMessage == "" && r.debugMessage == debug
    ensures r.errType == Internal && r.severity == Minor
  {
    Info("", debug, Internal, Minor)
  }

  /** The message Error() shows: the debug message, or the user message when there is none. */
  function Shown(i: Info): (r: string)
    ensures i.debugMessage != "" ==> r == i.debugMessage
    ensures i.debugMessage == "" ==> r == i.userMessage
  {
    if i.debugMessage == "" then i.userMessage else i.debugMessage
  }

  /** The start of Error(): the type in lower case. */
  function TypePrefix(t: ErrorType): string {
    ToLower(t.Name()) + " error: "
  }

  /** The text of Error(). */
  function ErrorText(i: Info): string {
    TypePrefix(i.errType) + Shown(i)
  }

  /** err.Error() for any error. */
  function Text(err: GoError): string {
    match err
    case Resource(i) => ErrorText(i)
    case Plain(t) => t
  }

  /** The lower-cased type names that start the text of Error(). */
  lemma TypePrefixes()
    ensures TypePrefix(Internal) == "internal error: "
    ensures TypePrefix(User) == "user error: "
  {
    assert ToLower("Internal") == "internal";
    assert ToLower("User") == "user";
  }

  /**
   * Error() hides nothing of what it reports: two records with the same
   * text have the same type and the same shown message.
   */
  lemma ErrorTextDecodes(a: Info, b: Info)
    requires ErrorText(a) == ErrorText(b)
    ensures a.errType == b.errType && Shown(a) == Shown(b)
  {
    TypePrefixes();
    var pa, pb := TypePrefix(a.errType), TypePrefix(b.errType);
    assert ErrorText(a)[0] == pa[0] && ErrorText(b)[0] == pb[0];
    assert Shown(a) == ErrorText(a)[|pa|..];
    assert Shown(b) == ErrorText(b)[|pb|..];
  }

  /** The record after WithUserMessage(msg): the user message is set only while it is empty. */
  function SetUserMessage(i: Info, msg: string): (r: Info)
    ensures i.userMessage == "" ==> r.userMessage == msg
    ensures i.userMessage != "" ==> r == i
    ensures r.debugMessage == i.debugMessage && r.errType == i.errType && r.severity == i.severity
  {
    if i.userMessage == "" then i.(userMessage := msg) else i
  }

  /** The message set first (and not empty) survives any later WithUserMessage calls. */
  lemma {:induction false} FirstUserMessageWins(i: Info, msgs: seq<string>)
    requires i.userMessage != ""
    ensures SetUserMessages(i, msgs) == i
    decreases |msgs|
  {
    if msgs != [] {
      FirstUserMessageWins(SetUserMessage(i, msgs[0]), msgs[1..]);
    }
  }

  /** A chain of WithUserMessage calls keeps the first message that is not empty. */
  function SetUserMessages(i: Info, msgs: seq<string>): Info
    decreases |msgs|
  {
    if msgs == [] then i else SetUserMessages(SetUserMessage(i, msgs[0]), msgs[1..])
  }

  /** A chain of WithUserMessage calls on a record without one ends with the first non-empty message of the chain. */
  lemma {:induction false} UserMessageOfChain(i: Info, msgs: seq<string>, k: nat)
    requires i.userMessage == ""
    requires k < |msgs| && msgs[k] != ""
    requires forall j :: 0 <= j < k ==> msgs[j] == ""
    ensures SetUserMessages(i, msgs).userMessage == msgs[k]
    ensures SetUserMessages(i, msgs) == i.(userMessage := msgs[k])
    decreases k
  {
    var i' := SetUserMessage(i, msgs[0]);
    if k == 0 {
      FirstUserMessageWins(i', msgs[1..]);
    } else {
      assert i' == i;
      forall j | 0 <= j < k - 1 ensures msgs[1..][j] == "" {
        assert msgs[1..][j] == msgs[j + 1];
      }
      UserMessageOfChain(i', msgs[1..], k - 1);
    }
  }

  /**
   * The record after WithError(err): from a resource error it takes the
   * severity, type and user message, and as debug message the child's
   * shown message; from any other error only the debug message, its text.
   */
  function Inherit(i: Info, err: GoError): (r: Info)
    ensures err.Resource? ==>
      r == Info(err.info.userMessage, Shown(err.info), err.info.errType, err.info.severity)
    ensures err.Plain? ==> r == i.(debugMessage := err.text)
  {
    match err
    case Resource(c) => Info(c.userMessage, if c.debugMessage == "" then c.userMessage else c.debugMessage, c.errType, c.severity)
    case Plain(t) => i.(debugMessage := t)
  }

  /** What SetResourceError stores for a non-nil error: NewResourceError("").WithError(err). */
  function Stored(err: GoError): Info {
    Inherit(Fresh(""), err)
  }

  /**
   * Storing an error keeps what it says: the stored record's Error() is
   * the child's for a resource error, and "internal error: " followed by
   * the text for any other; and it keeps the child's severity, type and
   * user message.
   */
  lemma StoredText(err: GoError)
    ensures err.Resource? ==> ErrorText(Stored(err)) == ErrorText(err.info)
    ensures err.Plain? ==> ErrorText(Stored(err)) == "internal error: " + err.text
    ensures err.Resource? ==>
      var s := Stored(err);
      s.severity == err.info.severity && s.errType == err.info.errType && s.userMessage == err.info.userMessage
  {
    TypePrefixes();
  }

  /** Storing a stored record again changes nothing. */
  lemma StoredIdempotent(err: GoError)
    ensures Stored(Resource(Stored(err))) == Stored(err)
  {
  }

  /** A ResourceErrorInfo record. */
  class ResourceErrorInfo {
    var userMessage: string
    var debugMessage: string
    var errType: ErrorType
    var severity: Severity

    /** The fields as a value. */
    function Value(): Info
      reads this
    {
      Info(userMessage, debugMessage, errType, severity)
    }

    /** NewResourceError(debug): an internal, minor error with no user message. */
    constructor (debug: string)
      ensures Value() == Fresh(debug)
    {
      userMessage := "";
      debugMessage := debug;
      errType := Internal;
      severity := Minor;
    }

    method WithUserMessage(msg: string) returns (r: ResourceErrorInfo)
      modifies this
      ensures r == this
      ensures Value() == SetUserMessage(old(Value()), msg)
    {
      if userMessage == "" {
        userMessage := msg;
      }
      return this;
    }

    method WithError(err: GoError) returns (r: ResourceErrorInfo)
      modifies this
      ensures r == this
      ensures Value() == Inherit(old(Value()), err)
    {
      var debugMessageList: seq<string> := [];
      match err {
        case Resource(child) =>
          severity := child.severity;
          userMessage := child.userMessage;
          errType := child.errType;
          if child.debugMessage == "" {
            debugMessageList := debugMessageList + [child.userMessage];
          } else {
            debugMessageList := debugMessageList + [child.debugMessage];
          }
        case Plain(t) =>
          debugMessageList := debugMessageList + [Text(err)];
      }
      debugMessage := JoinWith(debugMessageList, ": ");
      return this;
    }

    method WithSeverity(s: Severity) returns (r: ResourceErrorInfo)
      modifies this
      ensures r == this
      ensures Value() == old(Value()).(severity := s)
    {
      severity := s;
      return this;
    }

    method WithFatal() returns (r: ResourceErrorInfo)
      modifies this
      ensures r == this
      ensures Value() == old(Value()).(severity := Fatal)
    {
      r := WithSeverity(Fatal);
    }

    method WithMajor() returns (r: ResourceErrorInfo)
      modifies this
      ensures r == this
      ensures Value() == old(Value()).(severity := Major)
    {
      r := WithSeverity(Major);
    }

    method WithMinor() returns (r: ResourceErrorInfo)
      modifies this
      ensures r == this
      ensures Value() == old(Value()).(severity := Minor)
    {
      r := WithSeverity(Minor);
    }

    method WithInternal() returns (r: ResourceErrorInfo)
      modifies this
      ensures r == this
      ensures Value() == old(Value()).(errType := Internal)
    {
      errType := Internal;
      return this;
    }

    method WithUser() returns (r: ResourceErrorInfo)
      modifies this
      ensures r == this
      ensures Value() == old(Value()).(errType := User)
    {
      errType := User;
      return this;
    }

    /** Error(): the lower-cased type, " error: ", and the shown message. */
    method Error() returns (s: string)
      ensures s == ErrorText(Value())
    {
      var message := "";
      if debugMessage == "" {
        message := userMessage;
      } else {
        message := debugMessage;
      }
      s := ToLower(errType.Name()) + " error: " + message;
    }
  }

  /** What SetResourceErrorAndLog writes to the log. */
  datatype LogEntry =
    | NoEntry
    | FatalEntry(err: GoError)
    | Recoverable(severity: Base.Option<Severity>, message: string)

  /**
   * The entry for an error: none for nil, an error entry for a fatal
   * resource error, and otherwise an info entry with the error's text and,
   * for a resource error, its severity.
   */
  function EntryFor(err: Base.Option<GoError>): (r: LogEntry)
    ensures r.NoEntry? <==> err.None?
    ensures r.FatalEntry? <==> err.Some? && err.value.Resource? && err.value.info.severity == Fatal
    ensures r.Recoverable? ==>
      && r.message == Text(err.value)
      && (r.severity.Some? <==> err.value.Resource?)
      && (r.severity.Some? ==> r.severity.value == err.value.info.severity && err.value.info.severity != Fatal)
  {
    match err
    case None => NoEntry
    case Some(Resource(c)) => if c.severity == Fatal then FatalEntry(err.value) else Recoverable(Base.Some(c.severity), Text(err.value))
    case Some(Plain(t)) => Recoverable(Base.None, t)
  }

  /** The status part of a resource that can report an error. */
  class ResourceError {
    var error: ResourceErrorInfo?

    constructor ()
      ensures error == null
    {
      error := null;
    }

    /** Clears the error for nil, and otherwise stores a new record built from the error. */
    method SetResourceError(err: Base.Option<GoError>)
      modifies this
      ensures err.None? ==> error == null
      ensures err.Some? ==> error != null && fresh(error) && error.Value() == Stored(err.value)
    {
      if err.None? {
        error := null;
      } else {
        var info := new ResourceErrorInfo("");
        info := info.WithError(err.value);
        error := info;
      }
    }

    /** SetResourceError, and the log entry written beside it. */
    method SetResourceErrorAndLog(err: Base.Option<GoError>) returns (entry: LogEntry)
      modifies this
      ensures err.None? ==> error == null
      ensures err.Some? ==> error != null && fresh(error) && error.Value() == Stored(err.value)
      ensures entry == EntryFor(err)
    {
      SetResourceError(err);
      if err.None? {
        return NoEntry;
      }
      match err.value {
        case Resource(child) =>
          if child.severity == Fatal {
            return FatalEntry(err.value);
          }
          return Recoverable(Base.Some(child.severity), Text(err.value));
        case Plain(t) =>
          return Recoverable(Base.None, Text(err.value));
      }
    }
  }
}
