/** `DNConfigAttribute` as an object: its two DN lists and the pending flag are fields that its
    methods update in place, each method proved to move the state as the transition function
    of the same name in AttributeState (or JmxBridge) does. */
module DnConfig {
  import opened ConfigResult
  import opened DnSyntax
  import opened AttributeState
  import Reconciler
  import JmxBridge

  /** A list owned by the caller that an operation appends to (a JMX `AttributeList`, a
      `List<MBeanAttributeInfo>`). */
  class CallerList<T> {
    var items: seq<T>

    constructor (initial: seq<T>)
      ensures items == initial
    {
      items := initial;
    }
  }

  class DNConfigAttribute<DN> {
    /** `DN.valueOf` and `DN.toString`. */
    const codec: DnCodec<DN>
    /** Name, description and the three flags given to the superclass. */
    const meta: Meta
    /** The `activeValues` list. */
    var activeValues: seq<DN>
    /** The `pendingValues` list. */
    var pendingValues: seq<DN>
    /** The superclass's `hasPendingValues()`. */
    var hasPendingValues: bool
    /** Whether `pendingValues` refers to a different list object than `activeValues`. */
    var pendingSeparate: bool

    /** The fields as one value. */
    function State(): AttrState<DN>
      reads this
    {
      AttrState(activeValues, pendingValues, hasPendingValues, pendingSeparate)
    }

    ghost predicate Valid()
      reads this
    {
      Consistent(State())
    }

    /** The five-argument constructor: no values, and the pending list is the active list. */
    constructor Stub(c: DnCodec<DN>, m: Meta)
      ensures codec == c && meta == m
      ensures State() == AttrState([], [], false, false)
      ensures Valid()
    {
      codec := c;
      meta := m;
      activeValues := [];
      pendingValues := [];
      hasPendingValues := false;
      pendingSeparate := false;
    }

    /** The constructor taking one DN (possibly null), stored without validation. */
    constructor WithValue(c: DnCodec<DN>, m: Meta, value: Option<DN>)
      ensures codec == c && meta == m
      ensures State() == AttrState(if value.Some? then [value.value] else [], activeValues, false, false)
      ensures Valid()
    {
      codec := c;
      meta := m;
      activeValues := if value.Some? then [value.value] else [];
      pendingValues := activeValues;
      hasPendingValues := false;
      pendingSeparate := false;
    }

    /** The constructor taking a list of DNs (possibly null), stored without validation. */
    constructor WithValues(c: DnCodec<DN>, m: Meta, values: Option<seq<DN>>)
      ensures codec == c && meta == m
      ensures State() == AttrState(if values.Some? then values.value else [], activeValues, false, false)
      ensures Valid()
    {
      codec := c;
      meta := m;
      activeValues := if values.Some? then values.value else [];
      pendingValues := activeValues;
      hasPendingValues := false;
      pendingSeparate := false;
    }

    /** The seven-argument constructor: an active and a pending list, stored without validation. */
    constructor WithPending(c: DnCodec<DN>, m: Meta, active: Option<seq<DN>>, pending: PendingArg<DN>)
      ensures codec == c && meta == m
      ensures State() == Constructed(active, pending)
      ensures Valid()
    {
      codec := c;
      meta := m;
      hasPendingValues := pending.OwnList? || (pending.SameAsActive? && active.Some?);
      activeValues := if active.Some? then active.value else [];
      if pending.OwnList? {
        pendingValues := pending.values;
        pendingSeparate := true;
      } else {
        pendingValues := activeValues;
        pendingSeparate := false;
      }
    }

    /** `setValue(DN)`. */
    method SetValue(value: Option<DN>) returns (status: Status)
      requires Valid()
      modifies this
      ensures Valid()
      ensures Step(status, State()) == AttributeState.SetValue(meta, old(State()), value)
    {
      if value.None? {
        return Failure(DnNull);
      }
      if meta.requiresAdminAction {
        pendingValues := [value.value];
        pendingSeparate := true;
        hasPendingValues := true;
      } else {
        activeValues := [value.value];
        pendingValues := activeValues;
        pendingSeparate := false;
      }
      status := Success;
    }

    /** The element loop of `setValues`: the list's DNs in order, or the error for the first
      null element or the first element whose string form is already in the value set. */
    method ValidateValues(values: seq<Option<DN>>) returns (r: Result<seq<DN>>)
      ensures r == ScanValues(codec, values)
    {
      var dns: seq<DN> := [];
      var valueSet: seq<string> := [];
      for i := 0 to |values|
        invariant ScanValues(codec, values[..i]) == Ok(dns)
        invariant valueSet == Renders(codec, dns)
      {
        assert values[..i + 1][..i] == values[..i];
        if values[i].None? {
          ScanErrorPersists(codec, values, i + 1);
          return Err(DnNull);
        }
        var text := codec.render(values[i].value);
        if text in valueSet {
          ScanErrorPersists(codec, values, i + 1);
          return Err(AlreadyExists);
        }
        dns := dns + [values[i].value];
        valueSet := valueSet + [text];
      }
      assert values[..|values|] == values;
      r := Ok(dns);
    }

    /** `setValues(List<DN>)`, a null list read as an empty one. The empty-list branch clears
      first, as the source does, and the fall-through then stores the empty list. */
    method SetValues(values: Option<seq<Option<DN>>>) returns (status: Status)
      requires Valid()
      modifies this
      ensures Valid()
      ensures Step(status, State()) == AttributeState.SetValues(codec, meta, old(State()), values)
    {
      var vs := if values.None? then [] else values.value;
      if |vs| == 0 {
        if meta.isRequired {
          return Failure(IsRequired);
        }
        if meta.requiresAdminAction {
          pendingValues := [];
          pendingSeparate := true;
          hasPendingValues := true;
        } else {
          activeValues := [];
          if !pendingSeparate {
            pendingValues := activeValues;
          }
        }
      }
      if !meta.isMultiValued && |vs| > 1 {
        return Failure(SingleValued);
      }
      var scanned := ValidateValues(vs);
      if scanned.Err? {
        return Failure(scanned.error);
      }
      if meta.requiresAdminAction {
        pendingValues := scanned.value;
        pendingSeparate := true;
        hasPendingValues := true;
      } else {
        activeValues := scanned.value;
        pendingValues := activeValues;
        pendingSeparate := false;
      }
      status := Success;
    }

    /** `applyPendingValues()`. */
    method ApplyPendingValues()
      requires Valid()
      modifies this
      ensures Valid()
      ensures State() == ApplyPending(old(State()))
    {
      if !hasPendingValues {
        return;
      }
      hasPendingValues := false;
      activeValues := pendingValues;
      pendingSeparate := false;
    }

    /** `getConfigAttribute`: a new attribute with this one's name and flags, holding the
      active and pending sets stored in the given LDAP attributes. */
    method GetConfigAttribute(attrs: seq<Reconciler.LdapAttribute>) returns (r: Result<DNConfigAttribute<DN>>)
      ensures r.Err? <==> Reconciler.GetConfigAttribute(codec, meta, attrs).Err?
      ensures r.Err? ==> Reconciler.GetConfigAttribute(codec, meta, attrs) == Err(r.error)
      ensures r.Ok? ==>
                fresh(r.value) && r.value.codec == codec && r.value.meta == meta
                && r.value.State() == Reconciler.GetConfigAttribute(codec, meta, attrs).value
    {
      var gathered := Reconciler.Gather(codec, meta, attrs, Reconciler.Gathered(None, None));
      if gathered.Err? {
        return Err(gathered.error);
      }
      var g := gathered.value;
      if g.active.None? {
        return Err(NoActiveValueSet);
      }
      var pending := if g.pending.None? then SameAsActive else OwnList(g.pending.value);
      var created := new DNConfigAttribute.WithPending(codec, meta, g.active, pending);
      r := Ok(created);
    }

    /** `duplicate()`: a new attribute built by the seven-argument constructor from this one's
      lists, so it always has pending values, and otherwise the same state. */
    method Duplicate() returns (d: DNConfigAttribute<DN>)
      ensures fresh(d) && d.codec == codec && d.meta == meta
      ensures d.State() == Constructed(Some(activeValues), if pendingSeparate then OwnList(pendingValues) else SameAsActive)
      ensures Valid() ==> d.State() == State().(hasPending := true)
    {
      d := new DNConfigAttribute.WithPending(codec, meta, Some(activeValues),
                                             if pendingSeparate then OwnList(pendingValues) else SameAsActive);
    }

    /** The loop that fills a JMX string array: the string form of each DN, in order. */
    method RenderAll(dns: seq<DN>) returns (r: seq<string>)
      ensures |r| == |dns|
      ensures forall i :: 0 <= i < |dns| ==> r[i] == codec.render(dns[i])
    {
      r := [];
      for i := 0 to |dns|
        invariant |r| == i
        invariant forall k :: 0 <= k < i ==> r[k] == codec.render(dns[k])
      {
        r := r + [codec.render(dns[i])];
      }
    }

    /** `toJMXAttribute(AttributeList)`: appends the active values and, when they are staged
      separately on an attribute requiring administrative action, the pending values. */
    method AddJmxAttributes(list: CallerList<JmxBridge.JmxAttribute>)
      modifies list
      ensures list.items == old(list.items) + JmxBridge.JmxEntries(codec, meta, State())
    {
      var bare: JmxBridge.JmxAttribute;
      if |activeValues| > 0 {
        if meta.isMultiValued {
          var values := RenderAll(activeValues);
          assert values == Renders(codec, activeValues);
          bare := JmxBridge.JmxAttribute(meta.name, JmxBridge.JmxStringArray(values));
        } else {
          bare := JmxBridge.JmxAttribute(meta.name, JmxBridge.JmxString(codec.render(activeValues[0])));
        }
      } else if meta.isMultiValued {
        bare := JmxBridge.JmxAttribute(meta.name, JmxBridge.JmxStringArray([]));
      } else {
        bare := JmxBridge.JmxAttribute(meta.name, JmxBridge.JmxNull);
      }
      list.items := list.items + [bare];

      if meta.requiresAdminAction && pendingSeparate {
        var name := JmxBridge.PendingName(meta);
        if meta.isMultiValued {
          var values := RenderAll(pendingValues);
          assert values == Renders(codec, pendingValues);
          list.items := list.items + [JmxBridge.JmxAttribute(name, JmxBridge.JmxStringArray(values))];
        } else if |pendingValues| > 0 {
          list.items := list.items + [JmxBridge.JmxAttribute(name, JmxBridge.JmxString(codec.render(pendingValues[0])))];
        }
      }
    }

    /** `toJMXAttributeInfo`: appends the descriptor of the attribute and, when administrative
      action is required, the read-only descriptor of its pending values. */
    method AddJmxAttributeInfo(list: CallerList<JmxBridge.JmxAttributeInfo>)
      modifies list
      ensures list.items == old(list.items) + JmxBridge.AttributeInfos(meta)
    {
      list.items := list.items + [JmxBridge.JmxAttributeInfo(meta.name, JmxBridge.GetType(meta), meta.description, true, true, false)];
      if meta.requiresAdminAction {
        var name := JmxBridge.PendingName(meta);
        list.items := list.items + [JmxBridge.JmxAttributeInfo(name, JmxBridge.GetType(meta), meta.description, true, false, false)];
      }
    }

    /** The loop of `setValue(Attribute)` over a string array: each string parsed as a DN,
      the first one that does not parse failing the whole array. */
    method ParseStrings(items: seq<Option<string>>) returns (r: Result<seq<Option<DN>>>)
      ensures r == JmxBridge.ParseAll(codec, items)
    {
      var values: seq<Option<DN>> := [];
      for i := 0 to |items|
        invariant JmxBridge.ParseAll(codec, items[..i]) == Ok(values)
      {
        assert items[..i + 1][..i] == items[..i];
        if items[i].None? || codec.parse(items[i].value).None? {
          JmxBridge.ParseErrorPersists(codec, items, i + 1);
          return Err(DnCannotParse);
        }
        values := values + [codec.parse(items[i].value)];
      }
      assert items[..|items|] == items;
      r := Ok(values);
    }

    /** `setValue(javax.management.Attribute)` with an exclusive dispatch on the value's shape. */
    method SetValueFromJmx(v: JmxBridge.InboundValue<DN>) returns (status: Status)
      requires Valid()
      modifies this
      ensures Valid()
      ensures Step(status, State()) == JmxBridge.SetFromJmx(codec, meta, old(State()), v)
    {
      match v
      case InNull =>
        status := Failure(DnNull);
      case InDn(d) =>
        status := SetValue(Some(d));
      case InString(s) =>
        var dn := codec.parse(s);
        if dn.None? {
          return Failure(DnCannotParse);
        }
        status := SetValue(dn);
      case InDnArray(dns) =>
        status := SetValues(Some(dns));
      case InStringArray(items) =>
        var parsed := ParseStrings(items);
        if parsed.Err? {
          return Failure(parsed.error);
        }
        status := SetValues(Some(parsed.value));
      case InOtherArray(ct) =>
        status := Failure(InvalidArrayType(ct));
      case InOther(cn) =>
        status := Failure(InvalidType(cn));
    }

    /** `setValue(javax.management.Attribute)` as written: a DN value is stored and then
      reported as a value of an unsupported type. */
    method SetValueFromJmxAsWritten(v: JmxBridge.InboundValue<DN>) returns (status: Status)
      requires Valid()
      modifies this
      ensures Valid()
      ensures Step(status, State()) == JmxBridge.SetFromJmxAsWritten(codec, meta, old(State()), v)
    {
      if v.InDn? {
        status := SetValue(Some(v.dn));
        status := Failure(InvalidType(JmxBridge.DnClassName));
      } else {
        status := SetValueFromJmx(v);
      }
    }
  }
}
