/** The desire records, their conditions and the errors the stores return. */
module Desire {

  datatype Option<+T> = None | Some(value: T)

  /** A Go string is a sequence of bytes. */
  type Byte = c: char | c < '\U{0100}' witness 'a'
  type Str = seq<Byte>

  /** The desire type is a string in the wire format; `TypeOther` is any string that is not one of the three. */
  datatype Tag = TypeApply | TypeDelete | TypeRead | TypeOther(raw: Str)

  function Wire(t: Tag): Str {
    match t
    case TypeApply => "apply"
    case TypeDelete => "delete"
    case TypeRead => "read"
    case TypeOther(raw) => raw
  }

  type DesireType = t: Tag | t.TypeOther? ==> t.raw !in ["apply", "delete", "read"] witness TypeApply

  const ALL_TYPES: seq<DesireType> := [TypeApply, TypeDelete, TypeRead]

  /** The Kubernetes coordinates sibling desires share. */
  datatype Target = Target(managementCluster: Str, group: Str, resource: Str, namespace: Str, name: Str)

  datatype Identity = Identity(target: Target, ty: DesireType)

  const INITIAL_GENERATION: int := 1

  datatype ConditionType = Successful | OtherCondition(raw: string)

  datatype ConditionStatus = True | False | Unknown

  datatype Reason =
    | Applied | Deleted | Synced
    | WaitingForDeletion | NotFound
    | KubeAPIError | PreCheckFailed
    | OtherReason(raw: string)

  datatype Condition = Condition(
    ty: ConditionType,
    status: ConditionStatus,
    observedGeneration: int,
    reason: Reason,
    message: string,
    lastTransition: int)

  datatype Status = Status(conditions: seq<Condition>)

  datatype ReadStatus = ReadStatus(status: Status, kubeContent: string)

  const NO_STATUS := Status([])

  /** The first condition of a type, as apimachinery's FindStatusCondition. */
  function FindCondition(cs: seq<Condition>, ty: ConditionType): (r: Option<Condition>)
    ensures r.None? <==> forall c :: c in cs ==> c.ty != ty
    ensures r.Some? ==> r.value in cs && r.value.ty == ty
  {
    if cs == [] then None
    else if cs[0].ty == ty then Some(cs[0])
    else FindCondition(cs[1..], ty)
  }

  predicate IsDeleted(s: Status) {
    var c := FindCondition(s.conditions, Successful);
    c.Some? && c.value.status == True && c.value.reason == Deleted
  }

  datatype ApplySpec = ApplySpec(kubeContent: string)

  datatype ApplyDesire = ApplyDesire(
    identity: Identity, owner: string, originId: string, spec: ApplySpec,
    status: Status, generation: int, version: int)

  datatype DeleteDesire = DeleteDesire(
    identity: Identity, owner: string, originId: string,
    status: Status, generation: int, version: int)

  datatype ReadDesire = ReadDesire(
    identity: Identity, owner: string, originId: string, targetVersion: string,
    status: ReadStatus, generation: int, version: int)

  /** One stored desire; both stores use the same shape. */
  datatype Record = Record(
    apply: Option<ApplySpec>,
    identity: Identity,
    originId: string,
    owner: string,
    targetVersion: string,
    readStatus: ReadStatus,
    status: Status,
    generation: int,
    version: int)

  datatype Error =
    | ErrNotFound | ErrAlreadyExists | ErrVersionConflict
    | ErrAborted | ErrOwnerConflict | ErrDeletePending | ErrInvalid

  /** A JSON value; numbers keep their literal and objects have no key order. */
  datatype Json =
    | JNull | JBool(b: bool) | JNumber(literal: string) | JString(s: string)
    | JArray(elements: seq<Json>) | JObject(fields: map<string, Json>)

  datatype Manifest = Manifest(apiVersion: string, kind: string, name: Str, namespace: Str)

  /**
    * The library code the stores and controllers call, as arbitrary deterministic functions: JSON decoding (None for
    * invalid JSON), identity validation, and reading a Kubernetes object out of JSON.
    */
  datatype Library = Library(
    decode: string -> Option<Json>,
    validIdentity: Identity -> bool,
    manifest: string -> Option<Manifest>)

  predicate ValidSpec(lib: Library, spec: ApplySpec) {
    |spec.kubeContent| != 0 && lib.decode(spec.kubeContent).Some?
  }

  predicate ValidApply(lib: Library, d: ApplyDesire) {
    d.identity.ty == TypeApply && lib.validIdentity(d.identity) && d.owner != "" && ValidSpec(lib, d.spec)
  }

  predicate ValidDelete(lib: Library, d: DeleteDesire) {
    d.identity.ty == TypeDelete && lib.validIdentity(d.identity) && d.owner != ""
  }

  predicate ValidRead(lib: Library, d: ReadDesire) {
    d.identity.ty == TypeRead && lib.validIdentity(d.identity) && d.owner != "" && d.targetVersion != ""
  }

  /** Whether two specs hold the same JSON value: byte equality first, then decoded equality. */
  predicate SpecEqual(lib: Library, a: ApplySpec, b: ApplySpec) {
    if a.kubeContent == b.kubeContent then
      lib.decode(a.kubeContent).Some?
    else
      lib.decode(a.kubeContent).Some? && lib.decode(b.kubeContent).Some? &&
      lib.decode(a.kubeContent) == lib.decode(b.kubeContent)
  }

  /**
    * On valid JSON, spec equality is equality of the decoded values, hence an equivalence; invalid JSON equals
    * nothing.
    */
  lemma SpecEqualIsValueEquality(lib: Library, a: ApplySpec, b: ApplySpec)
    ensures SpecEqual(lib, a, b) <==>
              lib.decode(a.kubeContent).Some? && lib.decode(a.kubeContent) == lib.decode(b.kubeContent)
  {
  }

  datatype PrefixSelector = PrefixSelector(ty: Option<DesireType>, group: Str, resource: Str, namespace: Str, name: Str)

  /** Group and resource are matched by prefix, the rest exactly; an empty field matches anything. */
  predicate Matches(sel: PrefixSelector, id: Identity) {
    && (sel.ty.None? || id.ty == sel.ty.value)
    && (sel.group == "" || sel.group <= id.target.group)
    && (sel.resource == "" || sel.resource <= id.target.resource)
    && (sel.namespace == "" || id.target.namespace == sel.namespace)
    && (sel.name == "" || id.target.name == sel.name)
  }

  ghost predicate BeginsWith(text: Str, prefix: Str) { exists rest: Str :: text == prefix + rest }

  /** The identity is of the cluster, and its fields are the ones the selector gives or go on from the text it gives. */
  ghost predicate Picks(managementCluster: Str, sel: PrefixSelector, id: Identity) {
    && id.target.managementCluster == managementCluster
    && (sel.ty.Some? ==> sel.ty == Some(id.ty))
    && BeginsWith(id.target.group, sel.group) && BeginsWith(id.target.resource, sel.resource)
    && (|sel.namespace| > 0 ==> id.target.namespace == sel.namespace)
    && (|sel.name| > 0 ==> id.target.name == sel.name)
  }

  lemma PrefixIsBeginning(text: Str, prefix: Str)
    ensures prefix == "" || prefix <= text <==> BeginsWith(text, prefix)
  {
    if prefix <= text {
      assert text == prefix + text[|prefix|..];
    }
  }

  /** The selector's test, which lets an empty field match anything, decides what it picks. */
  lemma MatchesExactlyPicked(managementCluster: Str, sel: PrefixSelector, id: Identity)
    ensures id.target.managementCluster == managementCluster && Matches(sel, id) <==> Picks(managementCluster, sel, id)
  {
    PrefixIsBeginning(id.target.group, sel.group);
    PrefixIsBeginning(id.target.resource, sel.resource);
  }
}
