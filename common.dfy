// Shared vocabulary of the model: optional values, the dynamically typed
// values that flow through the services as dictionaries, Python truthiness,
// the few string operations the services use, and the error kinds they raise.

module Wrappers {

  datatype Option<+T> = None | Some(value: T)
}

module Values {

  /** Steady states of an android record (the `rb_status` constants). Only
      their distinctness matters, so they are opaque constructors. */
  datatype RbStatus = Ready | Active | Working

  /** Transitional markers of an android record (the `task_status` constants). */
  datatype TaskStatus = Activing | Deactiving | Starting | Stoping

  /** A value as it is stored in a dictionary or a column. `Null` is Python's
      `None` (SQL's NULL); `Obj` is a nested dictionary (a request body). */
  datatype Value =
    | Null
    | Str(s: string)
    | Int(i: int)
    | Bool(b: bool)
    | Rb(rb: RbStatus)
    | Task(task: TaskStatus)
    | List(items: seq<Value>)
    | Obj(fields: map<string, Value>)

  /** A Python dictionary with string keys. */
  type Dict = map<string, Value>

  /** Python truthiness: `None`, empty strings, zero, `False` and empty
      containers are false; the status constants are non-empty strings. */
  predicate Truthy(v: Value)
  {
    match v
    case Null => false
    case Str(s) => s != ""
    case Int(i) => i != 0
    case Bool(b) => b
    case Rb(_) => true
    case Task(_) => true
    case List(xs) => xs != []
    case Obj(m) => m != map[]
  }

  /** `d.get(k)`: the value under `k`, or `None` when the key is absent. */
  function Get(d: Dict, k: string): (v: Value)
    ensures k in d ==> v == d[k]
    ensures k !in d ==> v == Null
  {
    if k in d then d[k] else Null
  }

  /** A dictionary object that several parties hold a reference to: a method
      that changes `entries` changes what its caller sees. */
  class DictRef {
    var entries: Dict

    constructor (d: Dict)
      ensures entries == d
    {
      entries := d;
    }
  }

  // ---------------------------------------------------------------- strings

  /** Which kind of Python 2 string a text is: a byte string (`str`, as read
      from a file) or a Unicode string (`unicode`, as decoded from a JSON
      request body). They differ in what counts as white space. */
  datatype Text = Bytes | Unicode

  /** The characters `strip()` removes: for a byte string the six ASCII
      blanks; for a Unicode string also the information separators, NEL,
      no-break spaces and the other white space of Python 2.7's character
      database. */
  predicate IsSpace(c: char, t: Text)
  {
    || c == ' ' || c == '\t' || c == '\n' || c == '\r' || c == '\U{B}' || c == '\U{C}'
    || (t == Unicode &&
        (|| '\U{1C}' <= c <= '\U{1F}'
         || c == '\U{85}' || c == '\U{A0}' || c == '\U{1680}' || c == '\U{180E}'
         || '\U{2000}' <= c <= '\U{200A}'
         || c == '\U{2028}' || c == '\U{2029}' || c == '\U{202F}' || c == '\U{205F}'
         || c == '\U{3000}'))
  }

  // The string helpers below state only their lengths; what they compute is
  // stated by the lemmas beside them, so that code using them does not carry
  // quantified facts about every string in sight.

  function StripLeft(s: string, t: Text): (r: string)
    ensures |r| <= |s|
  {
    if s != [] && IsSpace(s[0], t) then StripLeft(s[1..], t) else s
  }

  /** `StripLeft` drops a prefix of white space and stops at the first
      other character. */
  lemma {:induction false} StripLeftDropsBlanks(s: string, t: Text)
    ensures StripLeft(s, t) == s[|s| - |StripLeft(s, t)|..]
    ensures StripLeft(s, t) == [] || !IsSpace(StripLeft(s, t)[0], t)
    ensures forall i :: 0 <= i < |s| - |StripLeft(s, t)| ==> IsSpace(s[i], t)
  {
    if s != [] && IsSpace(s[0], t) {
      StripLeftDropsBlanks(s[1..], t);
      assert s[1..][|s| - 1 - |StripLeft(s, t)|..] == s[|s| - |StripLeft(s, t)|..];
      forall i | 1 <= i < |s| - |StripLeft(s, t)|
        ensures IsSpace(s[i], t)
      {
        assert s[i] == s[1..][i - 1];
      }
    }
  }

  function StripRight(s: string, t: Text): (r: string)
    ensures |r| <= |s|
  {
    if s != [] && IsSpace(s[|s| - 1], t) then StripRight(s[..|s| - 1], t) else s
  }

  /** `StripRight` drops a suffix of white space and stops at the last
      other character. */
  lemma {:induction false} StripRightDropsBlanks(s: string, t: Text)
    ensures StripRight(s, t) == s[..|StripRight(s, t)|]
    ensures StripRight(s, t) == [] || !IsSpace(StripRight(s, t)[|StripRight(s, t)| - 1], t)
    ensures forall i :: |StripRight(s, t)| <= i < |s| ==> IsSpace(s[i], t)
  {
    if s != [] && IsSpace(s[|s| - 1], t) {
      StripRightDropsBlanks(s[..|s| - 1], t);
      assert s[..|s| - 1][..|StripRight(s, t)|] == s[..|StripRight(s, t)|];
      forall i | |StripRight(s, t)| <= i < |s| - 1
        ensures IsSpace(s[i], t)
      {
        assert s[i] == s[..|s| - 1][i];
      }
    }
  }

  /** `s.strip()`: `s` without leading and trailing white space. */
  function Strip(s: string, t: Text): (r: string)
    ensures |r| <= |s|
  {
    StripRight(StripLeft(s, t), t)
  }

  /** A stripped string is a slice of the original that neither starts nor
      ends with white space, and it is empty exactly when the original is
      all white space. */
  lemma StripTrims(s: string, t: Text)
    ensures exists i :: 0 <= i <= |s| - |Strip(s, t)| && s[i..][..|Strip(s, t)|] == Strip(s, t)
    ensures Strip(s, t) == [] || (!IsSpace(Strip(s, t)[0], t) && !IsSpace(Strip(s, t)[|Strip(s, t)| - 1], t))
    ensures (forall i :: 0 <= i < |s| ==> IsSpace(s[i], t)) <==> Strip(s, t) == []
  {
    var l := StripLeft(s, t);
    var r := StripRight(l, t);
    StripLeftDropsBlanks(s, t);
    StripRightDropsBlanks(l, t);
    // an all-blank `l` cannot start with a non-blank character, so it is empty
    assert r == [] ==> l == [];
    assert r != [] ==> r[0] == s[|s| - |l|];
    var i := |s| - |l|;
    assert s[i..][..|r|] == r;
    if r != [] {
      assert !IsSpace(s[i], t);
    }
  }

  predicate OccursAt(s: string, p: string, j: int)
  {
    0 <= j && j + |p| <= |s| && s[j..j + |p|] == p
  }

  function FindFrom(s: string, p: string, i: nat): (r: int)
    requires i <= |s| + 1
    ensures r == -1 || i <= r <= |s|
    decreases |s| + 1 - i
  {
    if i + |p| > |s| then -1
    else if s[i..i + |p|] == p then i
    else FindFrom(s, p, i + 1)
  }

  /** `FindFrom` reports an occurrence at or after `i`, and none between `i`
      and it. */
  lemma {:induction false} FindFromIsFirst(s: string, p: string, i: nat)
    requires i <= |s| + 1
    ensures FindFrom(s, p, i) == -1 || OccursAt(s, p, FindFrom(s, p, i))
    ensures forall j :: i <= j && (FindFrom(s, p, i) == -1 || j < FindFrom(s, p, i)) ==> !OccursAt(s, p, j)
    decreases |s| + 1 - i
  {
    if i + |p| <= |s| && s[i..i + |p|] != p {
      FindFromIsFirst(s, p, i + 1);
    }
  }

  /** `s.find(p)`: the lowest index where `p` occurs in `s`, or -1. */
  function Find(s: string, p: string): (r: int)
    ensures -1 <= r <= |s|
  {
    FindFrom(s, p, 0)
  }

  /** `Find` reports an occurrence, and no occurrence comes before it. */
  lemma FindIsFirst(s: string, p: string)
    ensures Find(s, p) == -1 || OccursAt(s, p, Find(s, p))
    ensures forall j :: 0 <= j && (Find(s, p) == -1 || j < Find(s, p)) ==> !OccursAt(s, p, j)
  {
    FindFromIsFirst(s, p, 0);
  }

  predicate IsLowerHex(c: char)
  {
    ('0' <= c <= '9') || ('a' <= c <= 'f')
  }

  /** `uuidutils.is_uuid_like`: `str(uuid.UUID(s)) == s`, which holds exactly
      for the canonical lower-case, hyphenated 36-character form. */
  predicate IsUuidLike(s: string)
  {
    && |s| == 36
    && (forall i :: 0 <= i < 36 && (i == 8 || i == 13 || i == 18 || i == 23) ==> s[i] == '-')
    && (forall i :: 0 <= i < 36 && i != 8 && i != 13 && i != 18 && i != 23 ==> IsLowerHex(s[i]))
  }
}

module Errors {
  import opened Values

  /** The exceptions the modelled code raises or lets through. */
  datatype Error =
    | InstanceInvalidState(attr: string, instanceUuid: Value, state: Value, methodName: string)
    | AndroidNotFound(uuid: Value)
    | ServiceNotFound(serviceId: Value)
    | HostBinaryNotFound(host: Value, binary: Value)
    | ComputeHostNotFound(host: Value)
    | ServiceBinaryExists(host: Value, binary: Value)
    | ServiceTopicExists(host: Value, topic: Value)
    | DuplicateEntry(columns: set<string>)
    | NotNullViolation(column: string)
    | UnknownRelation(name: string)
    | AdminRequired
    | UnrecognizedReadDeleted(readDeleted: string)
    | NovaException(message: string)
    | KeyError(key: string)
    | AttributeError(name: string)
    | TypeError
    | IndexError
    | UnboundLocal(name: string)
    | HttpNotFound(explanation: string)
    | HttpNotFoundFrom(cause: Error)
    | HttpBadRequest(detail: string)

  /** The errors that derive from `exception.NotFound`. */
  predicate IsNotFound(e: Error)
  {
    e.ServiceNotFound? || e.HostBinaryNotFound? || e.ComputeHostNotFound?
  }

  datatype Result<+T> = Ok(value: T) | Err(error: Error)

  /** The outcome of an operation that returns nothing. */
  datatype Outcome = Pass | Fail(error: Error)
}
