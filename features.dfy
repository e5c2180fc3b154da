/**
 * Features and the specification instances attached to them.
 *
 * A specification is a named predicate over its parameters; the registry
 * maps a name to a specification identity. A feature is the ordered list of
 * specification instances declared for one flag; it is enabled when it has
 * at least one instance and every instance evaluates to true.
 */
module Features {
  import opened Wrappers

  /** The identity of a registered specification: the two built-in shortcuts or an application one. */
  datatype SpecId = TrueSpecification | FalseSpecification | Registered(name: string)

  /** One use of a specification by a feature, with the parameters set on it so far. */
  datatype SpecInstance = SpecInstance(spec: SpecId, parameters: map<string, string>)

  datatype Feature = Feature(specifications: seq<SpecInstance>)

  /** The specification identities of a feature, in declaration order. */
  function SpecIds(f: Feature): (ids: seq<SpecId>)
    ensures |ids| == |f.specifications|
    ensures forall i :: 0 <= i < |ids| ==> ids[i] == f.specifications[i].spec
  {
    seq(|f.specifications|, i requires 0 <= i < |f.specifications| => f.specifications[i].spec)
  }

  /** The feature a first declaration `flag = spec` creates. */
  function NewFeature(spec: SpecId): Feature {
    Feature([SpecInstance(spec, map[])])
  }

  /** Feature.AddSpecification: a further declaration appends a fresh instance. */
  function AddSpecification(f: Feature, spec: SpecId): Feature {
    Feature(f.specifications + [SpecInstance(spec, map[])])
  }

  /** The position of the most recently added instance of spec, if any. */
  function LastInstanceOf(specs: seq<SpecInstance>, spec: SpecId): (r: Option<nat>)
    ensures r.Some? ==> r.value < |specs| && specs[r.value].spec == spec
    ensures r.Some? ==> forall j :: r.value < j < |specs| ==> specs[j].spec != spec
    ensures r.None? ==> forall j :: 0 <= j < |specs| ==> specs[j].spec != spec
  {
    if specs == [] then None
    else if specs[|specs| - 1].spec == spec then Some(|specs| - 1)
    else LastInstanceOf(specs[..|specs| - 1], spec)
  }

  /** What Feature.AddParameter does: set the parameter, or throw. */
  datatype ParameterOutcome =
    | ParameterSet(feature: Feature)
      /** the ArgumentException of a parameter name already set on that instance */
    | ParameterDeclaredTwice
      /** the lookup failure of a specification this feature has no instance of */
    | SpecificationNotAttached

  /**
   * Feature.AddParameter: sets name := value on the most recently added
   * instance of spec; a name already set there is refused, never overwritten.
   */
  function AddParameter(f: Feature, spec: SpecId, name: string, value: string): (r: ParameterOutcome)
    ensures r.SpecificationNotAttached? <==> spec !in SpecIds(f)
    ensures r.ParameterSet? ==> SpecIds(r.feature) == SpecIds(f)
  {
    match LastInstanceOf(f.specifications, spec)
    case None => SpecificationNotAttached
    case Some(i) =>
      var inst := f.specifications[i];
      if name in inst.parameters then ParameterDeclaredTwice
      else ParameterSet(Feature(f.specifications[i := inst.(parameters := inst.parameters[name := value])]))
  }

  /** Every parameter already set on an instance keeps its value. */
  ghost predicate KeepsParameters(f: Feature, g: Feature) {
    |f.specifications| <= |g.specifications|
    && forall i, p :: 0 <= i < |f.specifications| && p in f.specifications[i].parameters ==>
         p in g.specifications[i].parameters
         && g.specifications[i].parameters[p] == f.specifications[i].parameters[p]
  }

  /**
   * Adding a parameter never replaces or removes anything: the instances
   * stay the same, all earlier parameters keep their values, and exactly the
   * new one appears on the last instance of its specification.
   */
  lemma AddParameterAppends(f: Feature, spec: SpecId, name: string, value: string)
    requires AddParameter(f, spec, name, value).ParameterSet?
    ensures var g := AddParameter(f, spec, name, value).feature;
      KeepsParameters(f, g)
      && |g.specifications| == |f.specifications|
      && exists i :: 0 <= i < |g.specifications| && g.specifications[i].spec == spec
           && (forall j :: 0 <= j < |f.specifications| && j != i ==> g.specifications[j] == f.specifications[j])
           && (forall j :: i < j < |g.specifications| ==> g.specifications[j].spec != spec)
           && name !in f.specifications[i].parameters
           && g.specifications[i].parameters == f.specifications[i].parameters[name := value]
  {
    var i := LastInstanceOf(f.specifications, spec).value;
    var g := AddParameter(f, spec, name, value).feature;
    assert g.specifications[i].spec == spec;
  }

  /** A parameter is refused exactly when it is already set on the last instance of its specification. */
  lemma AddParameterDuplicate(f: Feature, spec: SpecId, name: string, value: string)
    requires spec in SpecIds(f)
    ensures AddParameter(f, spec, name, value).ParameterDeclaredTwice?
        <==> exists i :: 0 <= i < |f.specifications| && f.specifications[i].spec == spec
               && (forall j :: i < j < |f.specifications| ==> f.specifications[j].spec != spec)
               && name in f.specifications[i].parameters
  {
    var k := LastInstanceOf(f.specifications, spec).value;
    forall i | 0 <= i < |f.specifications| && f.specifications[i].spec == spec
      && (forall j :: i < j < |f.specifications| ==> f.specifications[j].spec != spec)
      ensures i == k
    {
    }
  }

  /** What one instance evaluates to; application specifications are decided by `custom`. */
  function Evaluate(s: SpecInstance, custom: SpecInstance -> bool): bool {
    match s.spec
    case TrueSpecification => true
    case FalseSpecification => false
    case Registered(_) => custom(s)
  }

  /** The AND of the instances, evaluated left to right. */
  function AllEnabled(specs: seq<SpecInstance>, custom: SpecInstance -> bool): bool {
    if specs == [] then true else Evaluate(specs[0], custom) && AllEnabled(specs[1..], custom)
  }

  /** Feature.IsEnabled: fail-closed AND-composition of the feature's specifications. */
  function IsFeatureEnabled(f: Feature, custom: SpecInstance -> bool): bool {
    |f.specifications| > 0 && AllEnabled(f.specifications, custom)
  }

  lemma {:induction false} AllEnabledIff(specs: seq<SpecInstance>, custom: SpecInstance -> bool)
    ensures AllEnabled(specs, custom) <==> forall i :: 0 <= i < |specs| ==> Evaluate(specs[i], custom)
  {
    if specs != [] {
      AllEnabledIff(specs[1..], custom);
      assert forall i :: 1 <= i < |specs| ==> specs[i] == specs[1..][i - 1];
    }
  }

  /** A feature is enabled exactly when it has a specification and all of them evaluate to true. */
  lemma EnabledIff(f: Feature, custom: SpecInstance -> bool)
    ensures IsFeatureEnabled(f, custom)
        <==> |f.specifications| > 0
             && forall i :: 0 <= i < |f.specifications| ==> Evaluate(f.specifications[i], custom)
  {
    AllEnabledIff(f.specifications, custom);
  }

  /** A feature without specifications is disabled. */
  lemma NoSpecificationDisabled(custom: SpecInstance -> bool)
    ensures !IsFeatureEnabled(Feature([]), custom)
  {
  }

  /** One specification evaluating to false disables the feature, whatever the others say. */
  lemma AnyFalseDisables(f: Feature, i: nat, custom: SpecInstance -> bool)
    requires i < |f.specifications| && !Evaluate(f.specifications[i], custom)
    ensures !IsFeatureEnabled(f, custom)
  {
    EnabledIff(f, custom);
  }

  /** The order in which specifications were declared does not change the verdict. */
  lemma OrderIrrelevant(a: seq<SpecInstance>, b: seq<SpecInstance>, custom: SpecInstance -> bool)
    ensures IsFeatureEnabled(Feature(a + b), custom) == IsFeatureEnabled(Feature(b + a), custom)
  {
    EnabledIff(Feature(a + b), custom);
    EnabledIff(Feature(b + a), custom);
    if !IsFeatureEnabled(Feature(a + b), custom) && |a + b| > 0 {
      var i :| 0 <= i < |a + b| && !Evaluate((a + b)[i], custom);
      if i < |a| { assert (b + a)[|b| + i] == a[i]; } else { assert (b + a)[i - |a|] == b[i - |a|]; }
    }
    if !IsFeatureEnabled(Feature(b + a), custom) && |b + a| > 0 {
      var i :| 0 <= i < |b + a| && !Evaluate((b + a)[i], custom);
      if i < |b| { assert (a + b)[|a| + i] == b[i]; } else { assert (a + b)[i - |b|] == a[i - |b|]; }
    }
  }
}
