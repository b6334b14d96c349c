/** The pure helpers of the `LinkedProcess` utility class: splitting an XMPP
    address ("JID") into its bare part and its resource, the bare class name,
    and the wire names of the protocol's status and error enumerations.

    A full JID has the form `localpart@domainpart/resourcepart` (RFC 7622,
    section 3.1). The helpers split at the FIRST `/` and validate nothing. */
module LinkedProcess {
  import opened Wrappers

  // ---------------------------------------------------------------------------
  // String searching, as `String.indexOf`, `String.lastIndexOf` and
  // `String.contains` do it for a one-character needle.

  /** The position of the first `c` in `s`, or -1 when there is none. */
  function IndexOf(s: string, c: char): (r: int)
    ensures -1 <= r < |s|
    ensures r == -1 <==> c !in s
    ensures 0 <= r ==> s[r] == c && c !in s[..r]
  {
    if s == [] then -1
    else if s[0] == c then 0
    else
      var k := IndexOf(s[1..], c);
      assert s[1..][..if k < 0 then 0 else k] == s[1..1 + if k < 0 then 0 else k];
      if k == -1 then -1 else k + 1
  }

  /** The position of the last `c` in `s`, or -1 when there is none. */
  function LastIndexOf(s: string, c: char): (r: int)
    ensures -1 <= r < |s|
    ensures r == -1 <==> c !in s
    ensures 0 <= r ==> s[r] == c && c !in s[r + 1..]
  {
    if s == [] then -1
    else if s[|s| - 1] == c then |s| - 1
    else
      var front := s[..|s| - 1];
      assert s == front + [s[|s| - 1]];
      LastIndexOf(front, c)
  }

  /** `String.contains` for a one-character needle: `indexOf(c) > -1`. */
  function Contains(s: string, c: char): (r: bool)
    ensures r <==> exists i :: 0 <= i < |s| && s[i] == c
  {
    IndexOf(s, c) > -1
  }

  // ---------------------------------------------------------------------------
  // JIDs

  /** The resourcepart of `fullJid`: everything after its first `/`. With no
      `/` at all, `indexOf` gives -1, so the whole string comes back. */
  function GenerateResource(fullJid: string): (r: string)
    ensures |r| <= |fullJid| && r == fullJid[|fullJid| - |r|..]
    ensures '/' !in fullJid ==> r == fullJid
    ensures '/' in fullJid ==>
              |r| < |fullJid| && fullJid[|fullJid| - |r| - 1] == '/'
              && '/' !in fullJid[..|fullJid| - |r| - 1]
  {
    fullJid[IndexOf(fullJid, '/') + 1..]
  }

  /** The bare JID: everything before the first `/`. `substring(0, -1)`
      throws when there is no `/`; that failure is `None` here. */
  function GenerateBareJid(fullJid: string): (r: Option<string>)
    ensures r.None? <==> '/' !in fullJid
    ensures r.Some? ==> '/' !in r.value
    ensures r.Some? ==> r.value + "/" + GenerateResource(fullJid) == fullJid
  {
    var slash := IndexOf(fullJid, '/');
    if slash < 0 then None
    else
      assert fullJid == fullJid[..slash] + "/" + fullJid[slash + 1..];
      Some(fullJid[..slash])
  }

  /** A JID is bare when it has no resourcepart, that is no `/` at all. */
  function IsBareJid(jid: string): (r: bool)
    ensures r <==> forall i :: 0 <= i < |jid| ==> jid[i] != '/'
  {
    !Contains(jid, '/')
  }

  /** A bare JID is left whole by `GenerateResource` and has no bare part
      to extract. */
  lemma BareJidHasNoSplit(jid: string)
    requires IsBareJid(jid)
    ensures GenerateResource(jid) == jid
    ensures GenerateBareJid(jid) == None
  {
    assert '/' !in jid;
  }

  /** Joining a bare part (which has no `/`) and any resource with `/` and
      splitting again gives both parts back: the split is at the first `/`,
      so a resource may itself contain `/`. */
  lemma SplitJoin(bare: string, resource: string)
    requires '/' !in bare
    ensures GenerateBareJid(bare + "/" + resource) == Some(bare)
    ensures GenerateResource(bare + "/" + resource) == resource
    ensures !IsBareJid(bare + "/" + resource)
  {
    var full := bare + "/" + resource;
    var k := IndexOf(full, '/');
    assert full[|bare|] == '/';
    assert full[..|bare|] == bare;
    assert k == |bare|;
    assert full[k + 1..] == resource;
  }

  // ---------------------------------------------------------------------------
  // Class names

  /** The simple name of a fully qualified Java class name: the text after
      the last `.`, or the whole name when it has no `.`. */
  function GetBareClassName(name: string): (r: string)
    ensures '.' !in r
    ensures |r| <= |name| && r == name[|name| - |r|..]
    ensures '.' !in name ==> r == name
    ensures '.' in name ==> |r| < |name| && name[|name| - |r| - 1] == '.'
  {
    if Contains(name, '.') then name[LastIndexOf(name, '.') + 1..] else name
  }

  // ---------------------------------------------------------------------------
  // Status enumerations and their wire names (`toString`)

  datatype JobStatus = InProgress
  {
    function ToString(): string
    {
      match this
      case InProgress => "in_progress"
    }
  }

  /** The farm status values of this file. The scheduler itself uses a
      different set, with TERMINATED in place of INACTIVE (see module
      Scheduler). */
  datatype FarmStatus = Active | ActiveFull | Inactive
  {
    function ToString(): string
    {
      match this
      case Active => "active"
      case ActiveFull => "full"
      case Inactive => "inactive"
    }
  }

  datatype VmStatus = Active | ActiveFull | NotFound | Inactive
  {
    function ToString(): string
    {
      match this
      case Active => "active"
      case ActiveFull => "full"
      case NotFound => "not_found"
      case Inactive => "inactive"
    }
  }

  /** No two farm statuses share a wire name, so a farm status can be read
      back from its name. */
  lemma FarmStatusNamesDistinct(f1: FarmStatus, f2: FarmStatus)
    ensures f1.ToString() == f2.ToString() ==> f1 == f2
  {
  }

  /** No two VM statuses share a wire name. */
  lemma VmStatusNamesDistinct(v1: VmStatus, v2: VmStatus)
    ensures v1.ToString() == v2.ToString() ==> v1 == v2
  {
  }

  // ---------------------------------------------------------------------------
  // Error types

  datatype LopErrorType =
    | WrongFarmPassword
    | WrongVmPassword
    | MalformedPacket
    | EvaluationError
    | FarmIsBusy
    | InternalError
    | InvalidValue
    | JobAborted
    | JobAlreadyExists
    | JobNotFound
    | JobTimedOut
    | SpeciesNotSupported
    | UnknownDatatype
    | VmIsBusy
  {
    function ToString(): string
    {
      match this
      case WrongFarmPassword => "wrong_farm_password"
      case WrongVmPassword => "wrong_vm_password"
      case MalformedPacket => "malformed_packet"
      case EvaluationError => "evaluation_error"
      case FarmIsBusy => "farm_is_busy"
      case InternalError => "internal_error"
      case InvalidValue => "invalid_value"
      case JobAborted => "job_aborted"
      case JobAlreadyExists => "job_already_exists"
      case JobNotFound => "job_not_found"
      case JobTimedOut => "job_timed_out"
      case SpeciesNotSupported => "species_not_supported"
      case UnknownDatatype => "unknown_datatype"
      case VmIsBusy => "vm_is_busy"
    }
  }

  /** `LopErrorType.values()`, in declaration order. */
  const ErrorTypeValues: seq<LopErrorType> :=
    [WrongFarmPassword, WrongVmPassword, MalformedPacket, EvaluationError,
     FarmIsBusy, InternalError, InvalidValue, JobAborted, JobAlreadyExists,
     JobNotFound, JobTimedOut, SpeciesNotSupported, UnknownDatatype, VmIsBusy]

  /** The linear search of `getErrorType` over `candidates`: the first one
      whose wire name equals `name`, or `None` (Java's `null`). */
  function FindErrorType(name: string, candidates: seq<LopErrorType>): (r: Option<LopErrorType>)
    ensures r.Some? ==> r.value in candidates && r.value.ToString() == name
    ensures r.None? <==> forall t :: t in candidates ==> t.ToString() != name
  {
    if candidates == [] then None
    else if candidates[0].ToString() == name then Some(candidates[0])
    else FindErrorType(name, candidates[1..])
  }

  /** `LopErrorType.getErrorType`. */
  function GetErrorType(name: string): (r: Option<LopErrorType>)
    ensures r.Some? ==> r.value.ToString() == name
  {
    FindErrorType(name, ErrorTypeValues)
  }

  /** Every error type is listed in `values()`. */
  lemma AllErrorTypesListed(t: LopErrorType)
    ensures t in ErrorTypeValues
  {
  }

  /** No two error types share a wire name. */
  lemma ErrorTypeNamesDistinct(t1: LopErrorType, t2: LopErrorType)
    ensures t1.ToString() == t2.ToString() ==> t1 == t2
  {
  }

  /** Reading back the wire name of an error type gives that error type. */
  lemma ErrorTypeRoundTrip(t: LopErrorType)
    ensures GetErrorType(t.ToString()) == Some(t)
  {
    AllErrorTypesListed(t);
    var r := GetErrorType(t.ToString());
    assert r.Some?;
    ErrorTypeNamesDistinct(r.value, t);
  }

  /** `getErrorType` returns `null` exactly for strings that are not the wire
      name of any error type. */
  lemma ErrorTypeUnknown(name: string)
    ensures GetErrorType(name) == None <==> forall t: LopErrorType :: t.ToString() != name
  {
    if GetErrorType(name) == None {
      forall t: LopErrorType ensures t.ToString() != name {
        AllErrorTypesListed(t);
      }
    }
  }
}
