/** Which cluster object a reconciler addresses for an identity. */
module ApplyTarget {
  import opened Desire

  /** A cluster object's coordinates; cluster-scoped objects have no namespace. */
  datatype Object = Object(group: Str, resource: Str, namespace: Str, name: Str)

  /** What the RESTMapper resolved: any group and resource, in either scope. */
  datatype Mapping = Mapping(group: Str, resource: Str, namespaced: bool)

  /** The object an identity names. */
  function Coordinates(t: Target): Object { Object(t.group, t.resource, t.namespace, t.name) }

  /** checkApplyTarget: the manifest and its mapping must agree with the identity. */
  predicate CheckApplyTarget(t: Target, m: Manifest, mapping: Mapping) {
    && mapping.group == t.group && mapping.resource == t.resource
    && m.name == t.name
    && if mapping.namespaced then t.namespace != "" && (m.namespace == "" || m.namespace == t.namespace)
       else t.namespace == ""
  }

  /** The manifest or its mapping names another resource, name, namespace or scope than the identity. */
  predicate Disagrees(t: Target, m: Manifest, mapping: Mapping) {
    || mapping.group != t.group
    || mapping.resource != t.resource
    || m.name != t.name
    || (mapping.namespaced && t.namespace == "")
    || (mapping.namespaced && m.namespace != "" && m.namespace != t.namespace)
    || (!mapping.namespaced && t.namespace != "")
  }

  /** The object the apply request is sent to: the mapped resource, in the identity's namespace if namespaced. */
  function AppliedObject(t: Target, mapping: Mapping): Object {
    Object(mapping.group, mapping.resource, if mapping.namespaced then t.namespace else "", t.name)
  }

  /** An apply that passes the check writes exactly the object its identity names. */
  lemma AppliesToItsIdentity(t: Target, m: Manifest, mapping: Mapping)
    requires CheckApplyTarget(t, m, mapping)
    ensures AppliedObject(t, mapping) == Coordinates(t)
  {
  }

  /**
    * Two apply identities of one management cluster that reach one object are one, for all manifests and both scopes.
    */
  lemma AppliesNeverCollide(t: Target, m: Manifest, mt: Mapping, u: Target, n: Manifest, mu: Mapping)
    requires t.managementCluster == u.managementCluster
    requires CheckApplyTarget(t, m, mt) && CheckApplyTarget(u, n, mu)
    requires AppliedObject(t, mt) == AppliedObject(u, mu)
    ensures t == u
  {
    AppliesToItsIdentity(t, m, mt);
    AppliesToItsIdentity(u, n, mu);
  }

  /** setupResourceClient: the delete path only refuses a namespaced resource without a namespace. */
  function DeletedObject(t: Target, mapping: Mapping): Option<Object> {
    if mapping.namespaced && t.namespace == "" then None
    else Some(Object(mapping.group, mapping.resource, if mapping.namespaced then t.namespace else "", t.name))
  }

  /** The mapping is for the identity's own resource, in the scope the identity is written for. */
  predicate MappingFits(t: Target, mapping: Mapping) {
    mapping.group == t.group && mapping.resource == t.resource && (mapping.namespaced <==> t.namespace != "")
  }

  /**
    * A delete addresses the object its identity names exactly when the mapping fits: unlike the apply path it does
    * not compare the resolved resource with the identity, and it drops a stray namespace silently.
    */
  lemma DeletesItsIdentityExactlyWhen(t: Target, mapping: Mapping)
    ensures DeletedObject(t, mapping) == Some(Coordinates(t)) <==> MappingFits(t, mapping)
  {
  }
}
