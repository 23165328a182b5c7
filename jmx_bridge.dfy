/** The JMX side of a DN configuration attribute: the attributes and descriptors it publishes
    (active values under the attribute's name, pending values under `name;pending`) and the
    remote write that dispatches on the shape of the value it receives. */
module JmxBridge {
  import opened ConfigResult
  import opened DnSyntax
  import opened AttributeState
  import ValueCodec
  import Reconciler

  /** The JMX type name of a string, and of an array of strings. */
  const JmxTypeString := "java.lang.String"
  const JmxTypeStringArray := "[Ljava.lang.String;"

  /** The class name of a DN, as an unsupported JMX value reports it. */
  const DnClassName := "org.forgerock.opendj.ldap.DN"

  /** A published JMX value: null, a string, or an array of strings. */
  datatype JmxValue = JmxNull | JmxString(s: string) | JmxStringArray(items: seq<string>)

  /** A `javax.management.Attribute`. */
  datatype JmxAttribute = JmxAttribute(name: string, value: JmxValue)

  /** An `MBeanAttributeInfo`: name, type, description and the readable, writable and
      is-getter flags. */
  datatype JmxAttributeInfo = JmxAttributeInfo(
    name: string, typeName: string, description: string,
    isReadable: bool, isWritable: bool, isIs: bool)

  /** An `MBeanParameterInfo`. */
  datatype JmxParameterInfo = JmxParameterInfo(name: string, typeName: string, description: string)

  /** The name under which the pending values are published. */
  function PendingName(meta: Meta): string {
    meta.name + ";" + Reconciler.PendingOption
  }

  /** `getType`: an array of strings for a multi-valued attribute, a string otherwise. */
  function GetType(meta: Meta): (r: string)
    ensures r == JmxTypeStringArray <==> meta.isMultiValued
    ensures r == JmxTypeString <==> !meta.isMultiValued
  {
    if meta.isMultiValued then JmxTypeStringArray else JmxTypeString
  }

  /** One value list as a JMX attribute: all string forms for a multi-valued attribute,
      the first one for a single-valued attribute, nothing for an empty single-valued list. */
  function ValueListAttribute<DN>(c: DnCodec<DN>, meta: Meta, name: string, dns: seq<DN>): Option<JmxAttribute> {
    if meta.isMultiValued then Some(JmxAttribute(name, JmxStringArray(Renders(c, dns))))
    else if |dns| > 0 then Some(JmxAttribute(name, JmxString(c.render(dns[0]))))
    else None
  }

  /** `_toJMXAttribute(pending)` (and `toJMXAttribute()`, `toJMXAttributePending()`): the
      active or pending list under the bare or the pending name; null only for an empty list
      of a single-valued attribute. The pending list is read as stored, whatever the pending
      flag says. */
  function ToJmxAttribute<DN>(c: DnCodec<DN>, meta: Meta, s: AttrState<DN>, pending: bool): (r: Option<JmxAttribute>)
    ensures r.Some? ==> r.value.name == (if pending then PendingName(meta) else meta.name)
    ensures r.None? <==> !meta.isMultiValued && |if pending then s.pending else s.active| == 0
    ensures r.Some? && meta.isMultiValued ==>
      r.value.value == JmxStringArray(Renders(c, if pending then s.pending else s.active))
    ensures r.Some? && !meta.isMultiValued ==>
      r.value.value == JmxString(c.render((if pending then s.pending else s.active)[0]))
  {
    if pending then ValueListAttribute(c, meta, PendingName(meta), s.pending)
    else ValueListAttribute(c, meta, meta.name, s.active)
  }

  /** What `toJMXAttribute(AttributeList)` appends: first, always, the active values under the
      bare name (an explicit null for an empty single-valued attribute); then the pending values
      under the pending name, only when administrative action is required, the pending list is a
      separate list and it is not an empty single-valued list. */
  function JmxEntries<DN>(c: DnCodec<DN>, meta: Meta, s: AttrState<DN>): (r: seq<JmxAttribute>)
    ensures 1 <= |r| <= 2
    ensures r[0].name == meta.name
    ensures r[0] == (if ToJmxAttribute(c, meta, s, false).Some? then ToJmxAttribute(c, meta, s, false).value
                     else JmxAttribute(meta.name, JmxNull))
    ensures meta.isMultiValued ==> r[0].value == JmxStringArray(ValueCodec.ActiveValuesToStrings(c, s))
    ensures |r| == 2 <==> meta.requiresAdminAction && s.pendingSeparate && (meta.isMultiValued || |s.pending| > 0)
    ensures |r| == 2 ==> Some(r[1]) == ToJmxAttribute(c, meta, s, true) && r[1].name == PendingName(meta)
  {
    var bare := match ValueListAttribute(c, meta, meta.name, s.active)
      case Some(a) => a
      case None => JmxAttribute(meta.name, JmxNull);
    var pendingEntry :=
      if meta.requiresAdminAction && s.pendingSeparate then ValueListAttribute(c, meta, PendingName(meta), s.pending)
      else None;
    [bare] + (if pendingEntry.Some? then [pendingEntry.value] else [])
  }

  /** What `toJMXAttributeInfo` appends: a readable and writable descriptor under the bare
      name, and, exactly when administrative action is required, a read-only one under the
      pending name. */
  function AttributeInfos(meta: Meta): (r: seq<JmxAttributeInfo>)
    ensures |r| == (if meta.requiresAdminAction then 2 else 1)
    ensures r[0].name == meta.name && r[0].isReadable && r[0].isWritable && !r[0].isIs
    ensures forall i :: 0 <= i < |r| ==> r[i].typeName == GetType(meta) && r[i].description == meta.description
    ensures |r| == 2 ==> r[1].name == PendingName(meta) && r[1].isReadable && !r[1].isWritable && !r[1].isIs
  {
    var active := JmxAttributeInfo(meta.name, GetType(meta), meta.description, true, true, false);
    if meta.requiresAdminAction then
      [active, JmxAttributeInfo(PendingName(meta), GetType(meta), meta.description, true, false, false)]
    else [active]
  }

  /** `toJMXParameterInfo`: the attribute as an operation parameter, with the same name, type
      and description as its writable descriptor. */
  function ParameterInfo(meta: Meta): (r: JmxParameterInfo)
    ensures var info := AttributeInfos(meta)[0];
      r.name == info.name && r.typeName == info.typeName && r.description == info.description
  {
    JmxParameterInfo(meta.name, GetType(meta), meta.description)
  }

  /** The value of a remote write, by its runtime shape. */
  datatype InboundValue<DN> =
    | InNull                                    // null
    | InDn(dn: DN)                              // a DN
    | InString(s: string)                       // a String
    | InDnArray(dns: seq<Option<DN>>)           // a DN[] (elements may be null)
    | InStringArray(items: seq<Option<string>>) // a String[] (elements may be null)
    | InOtherArray(componentType: string)       // an array of any other component type
    | InOther(className: string)                // any other non-null object

  /** Each string of an array parsed as a DN (a null element does not parse); the first
      failure fails the whole array. */
  function ParseAll<DN>(c: DnCodec<DN>, items: seq<Option<string>>): (r: Result<seq<Option<DN>>>)
    ensures r.Ok? <==> forall i :: 0 <= i < |items| ==> items[i].Some? && c.parse(items[i].value).Some?
    ensures r.Ok? ==> |r.value| == |items| && forall i :: 0 <= i < |items| ==> r.value[i] == c.parse(items[i].value)
    ensures r.Err? ==> r.error == DnCannotParse
    decreases |items|
  {
    if |items| == 0 then Ok([])
    else
      var init := items[..|items| - 1];
      var last := items[|items| - 1];
      match ParseAll(c, init)
      case Err(e) => Err(e)
      case Ok(prev) =>
        if last.None? then Err(DnCannotParse)
        else
          match c.parse(last.value)
          case None => Err(DnCannotParse)
          case Some(d) => Ok(prev + [Some(d)])
  }

  /** Once parsing a prefix of a string array has failed, parsing the whole array fails the
      same way. */
  lemma {:induction false} ParseErrorPersists<DN>(c: DnCodec<DN>, items: seq<Option<string>>, k: nat)
    requires k <= |items|
    requires ParseAll(c, items[..k]).Err?
    ensures ParseAll(c, items) == ParseAll(c, items[..k])
    decreases |items| - k
  {
    if k < |items| {
      var init := items[..|items| - 1];
      assert init[..k] == items[..k];
      ParseErrorPersists(c, init, k);
    } else {
      assert items[..k] == items;
    }
  }

  /** `setValue(javax.management.Attribute)` with its dispatch made exclusive: null fails; a DN
      goes to `setValue`; a string is parsed and goes to `setValue`; a DN array goes to
      `setValues`; a string array is parsed element by element and goes to `setValues`; any
      other array or value fails naming its type. */
  function SetFromJmx<DN>(c: DnCodec<DN>, meta: Meta, s: AttrState<DN>, v: InboundValue<DN>): (r: Step<DN>)
    ensures r.status.Failure? ==> r.next == s
    ensures v.InNull? ==> r.status == Failure(DnNull)
    ensures v.InDn? ==> r == SetValue(meta, s, Some(v.dn))
    ensures v.InString? ==> r.status == (if c.parse(v.s).Some? then Success else Failure(DnCannotParse))
    ensures v.InString? && c.parse(v.s).Some? ==> r == SetValue(meta, s, c.parse(v.s))
    ensures v.InDnArray? ==> r == SetValues(c, meta, s, Some(v.dns))
    ensures v.InStringArray? ==>
      r == (if ParseAll(c, v.items).Ok? then SetValues(c, meta, s, Some(ParseAll(c, v.items).value))
            else Step(Failure(DnCannotParse), s))
    ensures v.InOtherArray? ==> r.status == Failure(InvalidArrayType(v.componentType))
    ensures v.InOther? ==> r.status == Failure(InvalidType(v.className))
    ensures Consistent(s) ==> Consistent(r.next)
  {
    match v
    case InNull => Step(Failure(DnNull), s)
    case InDn(d) => SetValue(meta, s, Some(d))
    case InString(str) =>
      (match c.parse(str)
       case None => Step(Failure(DnCannotParse), s)
       case Some(d) => SetValue(meta, s, Some(d)))
    case InDnArray(dns) => SetValues(c, meta, s, Some(dns))
    case InStringArray(items) =>
      (match ParseAll(c, items)
       case Err(e) => Step(Failure(e), s)
       case Ok(dns) => SetValues(c, meta, s, Some(dns)))
    case InOtherArray(ct) => Step(Failure(InvalidArrayType(ct)), s)
    case InOther(cn) => Step(Failure(InvalidType(cn)), s)
  }

  /** `setValue(javax.management.Attribute)` as written: the test for a string follows the
      test for a DN with `if` instead of `else if`, so a DN value is stored by `setValue` and
      then reaches the final `throw` for an unsupported type. Every other shape behaves as in
      `SetFromJmx`. */
  function SetFromJmxAsWritten<DN>(c: DnCodec<DN>, meta: Meta, s: AttrState<DN>, v: InboundValue<DN>): (r: Step<DN>)
    ensures v.InDn? ==> r.status == Failure(InvalidType(DnClassName)) && r.next == SetValue(meta, s, Some(v.dn)).next
    ensures !v.InDn? ==> r == SetFromJmx(c, meta, s, v)
  {
    match v
    case InDn(d) => Step(Failure(InvalidType(DnClassName)), SetValue(meta, s, Some(d)).next)
    case _ => SetFromJmx(c, meta, s, v)
  }

  /** The discrepancy: as written, a DN written to an attribute whose active list is empty and
      which does not require administrative action is reported as a failure, yet it has
      become the active value. */
  lemma DnValueStoredThenRejected<DN>(c: DnCodec<DN>, meta: Meta, s: AttrState<DN>, d: DN)
    requires !meta.requiresAdminAction && s.active == []
    ensures var r := SetFromJmxAsWritten(c, meta, s, InDn(d));
      r.status.Failure? && r.next != s && r.next.active == [d]
  {
  }

  /** With the exclusive dispatch a DN value is stored by `setValue` and the write succeeds;
      in particular, where the as-written dispatch fails, the DN becomes the active value. */
  lemma DnValueStoredAndAccepted<DN>(c: DnCodec<DN>, meta: Meta, s: AttrState<DN>, d: DN)
    ensures SetFromJmx(c, meta, s, InDn(d)) == Step(Success, SetValue(meta, s, Some(d)).next)
    ensures !meta.requiresAdminAction ==> SetFromJmx(c, meta, s, InDn(d)).next.active == [d]
  {
  }

  /** A string array is accepted exactly when every element is non-null and parses and the
      parsed list is one `setValues` accepts; an element that does not parse fails the write
      with the cannot-parse error before anything changes. */
  lemma StringArrayWrite<DN>(c: DnCodec<DN>, meta: Meta, s: AttrState<DN>, items: seq<Option<string>>)
    ensures SetFromJmx(c, meta, s, InStringArray(items)).status == Success <==>
      (forall i :: 0 <= i < |items| ==> items[i].Some? && c.parse(items[i].value).Some?)
      && AcceptableList(c, meta, ParseAll(c, items).value)
    ensures (exists i :: 0 <= i < |items| && (items[i].None? || c.parse(items[i].value).None?)) ==>
      SetFromJmx(c, meta, s, InStringArray(items)) == Step(Failure(DnCannotParse), s)
  {
  }

  /** Parsing the strings a multi-valued attribute publishes gives back its DNs. */
  lemma {:induction false} ParseAllOfRenders<DN(!new)>(c: DnCodec<DN>, dns: seq<DN>)
    requires Sound(c)
    ensures ParseAll(c, Present(Renders(c, dns))).Ok?
    ensures forall i :: 0 <= i < |dns| ==> ParseAll(c, Present(Renders(c, dns))).value[i] == Some(dns[i])
  {
  }

  /** Writing back what a multi-valued attribute publishes as its active values, on an
      attribute that applies changes at once, succeeds and leaves the active list as it was,
      with pending unified with it. */
  lemma JmxWriteBackIsIdentity<DN(!new)>(c: DnCodec<DN>, meta: Meta, s: AttrState<DN>)
    requires Sound(c)
    requires meta.isMultiValued && !meta.requiresAdminAction
    requires |s.active| > 0 || !meta.isRequired
    requires Distinct(Renders(c, s.active))
    ensures var published := JmxEntries(c, meta, s)[0].value;
      published.JmxStringArray?
      && SetFromJmx(c, meta, s, InStringArray(Present(published.items)))
         == Step(Success, s.(pending := s.active, pendingSeparate := false))
  {
    var items := Present(Renders(c, s.active));
    ParseAllOfRenders(c, s.active);
    var parsed := ParseAll(c, items).value;
    assert DistinctRenders(c, parsed) by {
      forall i, j | 0 <= i < j < |parsed|
        ensures c.render(parsed[i].value) != c.render(parsed[j].value)
      {
        assert Renders(c, s.active)[i] != Renders(c, s.active)[j];
      }
    }
    var r := SetValues(c, meta, s, Some(parsed));
    assert r.next.active == s.active;
  }
}
