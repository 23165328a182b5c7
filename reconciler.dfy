/** `getConfigAttribute`: rebuilding a DN configuration attribute from the LDAP attributes
    stored for it, one without options holding the active values and at most one carrying
    the `pending` option holding the pending values. */
module Reconciler {
  import opened ConfigResult
  import opened DnSyntax
  import opened AttributeState

  /** The attribute option that marks the pending value set. */
  const PendingOption := "pending"

  /** A stored LDAP attribute: its name, its options and its values as strings. */
  datatype LdapAttribute = LdapAttribute(name: string, options: seq<string>, values: seq<string>)

  /** An attribute without options: the active value set. */
  predicate IsActiveSet(a: LdapAttribute) {
    |a.options| == 0
  }

  /** An attribute whose options include `pending`: the pending value set. */
  predicate IsPendingSet(a: LdapAttribute) {
    |a.options| > 0 && PendingOption in a.options
  }

  /** The stored strings parsed one by one, in order and repeats kept; any string that
      does not parse fails the whole set. */
  function ParseStored<DN>(c: DnCodec<DN>, values: seq<string>): (r: Result<seq<DN>>)
    ensures r.Ok? <==> forall i :: 0 <= i < |values| ==> c.parse(values[i]).Some?
    ensures r.Ok? ==> |r.value| == |values| && forall i :: 0 <= i < |values| ==> c.parse(values[i]) == Some(r.value[i])
    ensures r.Err? ==> r.error == DnCannotParse
    decreases |values|
  {
    if |values| == 0 then Ok([])
    else
      var init := values[..|values| - 1];
      match ParseStored(c, init)
      case Err(e) => Err(e)
      case Ok(prev) =>
        match c.parse(values[|values| - 1])
        case None => Err(DnCannotParse)
        case Some(d) => Ok(prev + [d])
  }

  /** The value set of one stored attribute: empty is allowed only when the attribute is not
      required, several values only when it is multi-valued, and every value must parse. */
  function ValueSet<DN>(c: DnCodec<DN>, meta: Meta, a: LdapAttribute): (r: Result<seq<DN>>)
    ensures r.Ok? <==> (|a.values| > 0 || !meta.isRequired) && (|a.values| <= 1 || meta.isMultiValued)
                       && forall i :: 0 <= i < |a.values| ==> c.parse(a.values[i]).Some?
    ensures r.Ok? ==> |r.value| == |a.values| && forall i :: 0 <= i < |a.values| ==> c.parse(a.values[i]) == Some(r.value[i])
  {
    if |a.values| == 0 then (if meta.isRequired then Err(IsRequired) else Ok([]))
    else if |a.values| > 1 && !meta.isMultiValued then Err(SingleValued)
    else ParseStored(c, a.values)
  }

  /** The active and pending lists found so far (`null` until found). */
  datatype Gathered<DN> = Gathered(active: Option<seq<DN>>, pending: Option<seq<DN>>)

  /** The loop over the stored attributes, in order. */
  function Gather<DN>(c: DnCodec<DN>, meta: Meta, attrs: seq<LdapAttribute>, acc: Gathered<DN>): Result<Gathered<DN>>
    decreases |attrs|
  {
    if |attrs| == 0 then Ok(acc)
    else
      var a := attrs[0];
      if |a.options| > 0 then
        if PendingOption in a.options then
          if acc.pending.Some? then Err(MultiplePendingValueSets)
          else
            match ValueSet(c, meta, a)
            case Err(e) => Err(e)
            case Ok(vs) => Gather(c, meta, attrs[1..], acc.(pending := Some(vs)))
        else Err(OptionsNotAllowed)
      else if acc.active.Some? then Err(MultipleActiveValueSets)
      else
        match ValueSet(c, meta, a)
        case Err(e) => Err(e)
        case Ok(vs) => Gather(c, meta, attrs[1..], acc.(active := Some(vs)))
  }

  /** `getConfigAttribute`: the state of the attribute it builds. Pending is the active list
      object when no pending set was stored, and the pending flag is always raised because the
      seven-argument constructor receives a non-null pending list. */
  function GetConfigAttribute<DN>(c: DnCodec<DN>, meta: Meta, attrs: seq<LdapAttribute>): (r: Result<AttrState<DN>>)
    ensures r.Ok? ==> Consistent(r.value) && r.value.hasPending
  {
    match Gather(c, meta, attrs, Gathered(None, None))
    case Err(e) => Err(e)
    case Ok(g) =>
      if g.active.None? then Err(NoActiveValueSet)
      else Ok(Constructed(g.active, if g.pending.None? then SameAsActive else OwnList(g.pending.value)))
  }

  /** The number of attributes without options. */
  function CountActive(attrs: seq<LdapAttribute>): nat {
    if |attrs| == 0 then 0 else (if IsActiveSet(attrs[0]) then 1 else 0) + CountActive(attrs[1..])
  }

  /** The number of attributes carrying the pending option. */
  function CountPending(attrs: seq<LdapAttribute>): nat {
    if |attrs| == 0 then 0 else (if IsPendingSet(attrs[0]) then 1 else 0) + CountPending(attrs[1..])
  }

  /** An attribute that is either an active or a pending set and whose values are acceptable. */
  predicate Admissible<DN>(c: DnCodec<DN>, meta: Meta, a: LdapAttribute) {
    (IsActiveSet(a) || IsPendingSet(a)) && ValueSet(c, meta, a).Ok?
  }

  /** The loop succeeds exactly when every attribute is admissible and it meets at most one
      active and at most one pending set in all; it ends with an active list exactly when
      there was one before or one was met. */
  lemma {:induction false} GatherSucceedsIff<DN>(c: DnCodec<DN>, meta: Meta, attrs: seq<LdapAttribute>, acc: Gathered<DN>)
    ensures Gather(c, meta, attrs, acc).Ok? <==>
      (forall i :: 0 <= i < |attrs| ==> Admissible(c, meta, attrs[i]))
      && CountActive(attrs) + (if acc.active.Some? then 1 else 0) <= 1
      && CountPending(attrs) + (if acc.pending.Some? then 1 else 0) <= 1
    ensures Gather(c, meta, attrs, acc).Ok? ==>
      (Gather(c, meta, attrs, acc).value.active.Some? <==> acc.active.Some? || CountActive(attrs) > 0)
    decreases |attrs|
  {
    if |attrs| > 0 {
      var a := attrs[0];
      var rest := attrs[1..];
      assert forall i :: 1 <= i < |attrs| ==> attrs[i] == rest[i - 1];
      match ValueSet(c, meta, a)
      case Err(_) =>
      case Ok(vs) =>
        if IsPendingSet(a) {
          GatherSucceedsIff(c, meta, rest, acc.(pending := Some(vs)));
        } else if IsActiveSet(a) {
          GatherSucceedsIff(c, meta, rest, acc.(active := Some(vs)));
        }
    }
  }

  /** `getConfigAttribute` succeeds exactly when every stored attribute is admissible, exactly
      one has no options and at most one carries the pending option. Each of the source's
      errors (a second active or pending set, another option, no active set, an empty set on
      a required attribute, several values on a single-valued one, a value that does not
      parse) therefore rejects the list. */
  lemma GetConfigAttributeSucceedsIff<DN>(c: DnCodec<DN>, meta: Meta, attrs: seq<LdapAttribute>)
    ensures GetConfigAttribute(c, meta, attrs).Ok? <==>
      (forall i :: 0 <= i < |attrs| ==> Admissible(c, meta, attrs[i]))
      && CountActive(attrs) == 1 && CountPending(attrs) <= 1
  {
    GatherSucceedsIff(c, meta, attrs, Gathered(None, None));
  }

  /** What the loop gathers: a list already found is kept, and a set met in the attributes
      is parsed from that attribute's values, in order. */
  lemma {:induction false} GatherResult<DN>(c: DnCodec<DN>, meta: Meta, attrs: seq<LdapAttribute>, acc: Gathered<DN>)
    requires Gather(c, meta, attrs, acc).Ok?
    ensures var g := Gather(c, meta, attrs, acc).value;
      (acc.active.Some? ==> g.active == acc.active)
      && (acc.pending.Some? ==> g.pending == acc.pending)
      && (forall i :: 0 <= i < |attrs| && IsActiveSet(attrs[i]) ==> g.active.Some? && ValueSet(c, meta, attrs[i]) == Ok(g.active.value))
      && (forall i :: 0 <= i < |attrs| && IsPendingSet(attrs[i]) ==> g.pending.Some? && ValueSet(c, meta, attrs[i]) == Ok(g.pending.value))
      && ((forall i :: 0 <= i < |attrs| ==> !IsActiveSet(attrs[i])) ==> g.active == acc.active)
      && ((forall i :: 0 <= i < |attrs| ==> !IsPendingSet(attrs[i])) ==> g.pending == acc.pending)
    decreases |attrs|
  {
    if |attrs| > 0 {
      var a := attrs[0];
      var rest := attrs[1..];
      assert forall i :: 1 <= i < |attrs| ==> attrs[i] == rest[i - 1];
      var vs := ValueSet(c, meta, a).value;
      if IsPendingSet(a) {
        GatherResult(c, meta, rest, acc.(pending := Some(vs)));
      } else {
        GatherResult(c, meta, rest, acc.(active := Some(vs)));
      }
    }
  }

  /** On success the new attribute keeps the stored order: its active list is parsed from the
      attribute without options, its pending list from the pending attribute when there is one
      (making it a separate list) and is the active list otherwise. */
  lemma GetConfigAttributeValues<DN>(c: DnCodec<DN>, meta: Meta, attrs: seq<LdapAttribute>, i: nat)
    requires i < |attrs|
    requires GetConfigAttribute(c, meta, attrs).Ok?
    ensures var s := GetConfigAttribute(c, meta, attrs).value;
      (IsActiveSet(attrs[i]) ==> ValueSet(c, meta, attrs[i]) == Ok(s.active))
      && (IsPendingSet(attrs[i]) ==> ValueSet(c, meta, attrs[i]) == Ok(s.pending) && s.pendingSeparate)
      && ((forall j :: 0 <= j < |attrs| ==> !IsPendingSet(attrs[j])) ==> s.pending == s.active && !s.pendingSeparate)
  {
    GatherResult(c, meta, attrs, Gathered(None, None));
  }

  /** A stored pending set is accepted even when the attribute does not require
      administrative action. */
  lemma PendingSetAcceptedWithoutAdminAction<DN>(c: DnCodec<DN>, meta: Meta, a: LdapAttribute, p: LdapAttribute)
    requires !meta.requiresAdminAction
    requires Admissible(c, meta, a) && IsActiveSet(a)
    requires Admissible(c, meta, p) && IsPendingSet(p)
    ensures GetConfigAttribute(c, meta, [a, p]).Ok?
    ensures GetConfigAttribute(c, meta, [a, p]).value.pendingSeparate
  {
    var attrs := [a, p];
    var va := ValueSet(c, meta, a).value;
    var vp := ValueSet(c, meta, p).value;
    assert attrs[1..] == [p];
    assert [p][1..] == [];
    var g := Gathered(Some(va), Some(vp));
    assert Gather(c, meta, [], g) == Ok(g);
    assert Gather(c, meta, [p], Gathered(Some(va), None)) == Ok(g);
    assert Gather(c, meta, attrs, Gathered(None, None)) == Ok(g);
  }

  /** Two stored attributes without options are rejected as two active sets. */
  lemma TwoActiveSetsRejected<DN>(c: DnCodec<DN>, meta: Meta, a: LdapAttribute, b: LdapAttribute)
    requires IsActiveSet(a) && IsActiveSet(b) && ValueSet(c, meta, a).Ok?
    ensures GetConfigAttribute(c, meta, [a, b]) == Err(MultipleActiveValueSets)
  {
    var attrs := [a, b];
    var va := ValueSet(c, meta, a).value;
    assert attrs[1..] == [b];
    assert Gather(c, meta, [b], Gathered(Some(va), None)) == Err(MultipleActiveValueSets);
    assert Gather(c, meta, attrs, Gathered(None, None)) == Err(MultipleActiveValueSets);
  }

  /** A pending set without an active set is rejected. */
  lemma PendingOnlyRejected<DN>(c: DnCodec<DN>, meta: Meta, p: LdapAttribute)
    requires IsPendingSet(p) && ValueSet(c, meta, p).Ok?
    ensures GetConfigAttribute(c, meta, [p]) == Err(NoActiveValueSet)
  {
    var vp := ValueSet(c, meta, p).value;
    assert [p][1..] == [];
    assert Gather(c, meta, [], Gathered(None, Some(vp))) == Ok(Gathered(None, Some(vp)));
    assert Gather(c, meta, [p], Gathered(None, None)) == Ok(Gathered(None, Some(vp)));
  }
}
