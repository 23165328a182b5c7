/** The two value lists of a DN configuration attribute and its two-phase update
    (immediate, or staged until `applyPendingValues`), as functions of a snapshot
    of the attribute's state. The class in DnConfig is proved against these. */
module AttributeState {
  import opened ConfigResult
  import opened DnSyntax

  /** Metadata fixed when the attribute is created (kept by the superclass `ConfigAttribute`). */
  datatype Meta = Meta(
    name: string,
    description: string,
    isRequired: bool,
    isMultiValued: bool,
    requiresAdminAction: bool)

  /** The state of an attribute. `active` and `pending` are the two DN lists;
      `hasPending` is the superclass's `hasPendingValues()` flag; `pendingSeparate`
      records that the pending list is a different list object from the active one
      (the source compares the two references). */
  datatype AttrState<DN> = AttrState(
    active: seq<DN>,
    pending: seq<DN>,
    hasPending: bool,
    pendingSeparate: bool)

  /** What holds of every attribute: a pending list that is the active list object
      has the active contents, and a separate pending list only exists once the
      pending flag is raised. */
  ghost predicate Consistent<DN>(s: AttrState<DN>) {
    (!s.pendingSeparate ==> s.pending == s.active) && (s.pendingSeparate ==> s.hasPending)
  }

  /** The pending-list argument of the seven-argument constructor: `null`, the very
      list object passed as the active list, or a list object of its own. */
  datatype PendingArg<DN> = NullList | SameAsActive | OwnList(values: seq<DN>)

  /** The state the seven-argument constructor builds (no validation is done). A null
      active list becomes an empty list, a null pending list makes pending the active
      list, and the pending flag is raised exactly when the pending argument is not null. */
  function Constructed<DN>(active: Option<seq<DN>>, pending: PendingArg<DN>): (r: AttrState<DN>)
    ensures Consistent(r)
    ensures r.active == (if active.Some? then active.value else [])
    ensures r.hasPending <==> pending.OwnList? || (pending.SameAsActive? && active.Some?)
    ensures r.pendingSeparate <==> pending.OwnList?
    ensures pending.OwnList? ==> r.pending == pending.values
  {
    var act := if active.Some? then active.value else [];
    match pending
    case NullList => AttrState(act, act, false, false)
    case SameAsActive => AttrState(act, act, active.Some?, false)
    case OwnList(p) => AttrState(act, p, true, true)
  }

  /** The one value of a list, as `activeValue()` and `pendingValue()` read it. */
  function SingleValue<DN>(vs: seq<DN>): (r: Result<DN>)
    ensures r.Ok? <==> |vs| == 1
    ensures r.Ok? ==> r.value == vs[0]
    ensures r.Err? ==> (r.error == NoValue <==> |vs| == 0)
    ensures r.Err? ==> (r.error == MultipleValues <==> |vs| > 1)
  {
    if |vs| == 0 then Err(NoValue)
    else if |vs| > 1 then Err(MultipleValues)
    else Ok(vs[0])
  }

  /** `activeValue()`: the active value, failing unless there is exactly one. */
  function ActiveValue<DN>(s: AttrState<DN>): (r: Result<DN>)
    ensures r.Ok? <==> |s.active| == 1
    ensures r.Ok? ==> r.value == s.active[0]
  {
    SingleValue(s.active)
  }

  /** `pendingValues()`: the pending list, or the active list when there are no pending values. */
  function PendingValues<DN>(s: AttrState<DN>): (r: seq<DN>)
    ensures !s.hasPending ==> r == s.active
    ensures Consistent(s) ==> r == s.pending
  {
    if !s.hasPending then s.active else s.pending
  }

  /** `pendingValue()`: the active value when there are no pending values, otherwise the
      single pending value; either way the single value of what `pendingValues()` returns. */
  function PendingValue<DN>(s: AttrState<DN>): (r: Result<DN>)
    ensures r == SingleValue(PendingValues(s))
    ensures !s.hasPending ==> r == ActiveValue(s)
  {
    if !s.hasPending then ActiveValue(s) else SingleValue(s.pending)
  }

  /** The outcome of a state-changing operation: what it reports and the state it leaves. */
  datatype Step<DN> = Step(status: Status, next: AttrState<DN>)

  /** Storing an accepted list: staged as a new pending list object when the attribute
      requires administrative action, otherwise made active at once with the pending list
      becoming the active list object. */
  function Install<DN>(meta: Meta, s: AttrState<DN>, dns: seq<DN>): AttrState<DN> {
    if meta.requiresAdminAction then s.(pending := dns, hasPending := true, pendingSeparate := true)
    else s.(active := dns, pending := dns, pendingSeparate := false)
  }

  /** `setValue(DN)`: a null DN is rejected and changes nothing; otherwise the single value
      replaces only the pending list when administrative action is required, and both lists
      (as one list object) when it is not. */
  function SetValue<DN>(meta: Meta, s: AttrState<DN>, value: Option<DN>): (r: Step<DN>)
    ensures value.None? ==> r.status == Failure(DnNull) && r.next == s
    ensures value.Some? ==> r.status == Success
    ensures value.Some? && meta.requiresAdminAction ==>
      r.next.active == s.active && r.next.pending == [value.value] && r.next.hasPending && r.next.pendingSeparate
    ensures value.Some? && !meta.requiresAdminAction ==>
      r.next.active == [value.value] && r.next.pending == r.next.active && !r.next.pendingSeparate
      && r.next.hasPending == s.hasPending
    ensures Consistent(s) ==> Consistent(r.next)
  {
    match value
    case None => Step(Failure(DnNull), s)
    case Some(d) => Step(Success, Install(meta, s, [d]))
  }

  /** The element checks of `setValues`, in list order: the first null element or the first
      element whose string form an earlier element already has stops the scan. On success the
      list holds the same DNs, none of them null. */
  function ScanValues<DN>(c: DnCodec<DN>, values: seq<Option<DN>>): (r: Result<seq<DN>>)
    ensures r.Ok? <==> AllPresent(values) && DistinctRenders(c, values)
    ensures r.Ok? ==> |r.value| == |values| && forall i :: 0 <= i < |values| ==> values[i] == Some(r.value[i])
    ensures r.Err? ==> r.error == DnNull || r.error == AlreadyExists
    decreases |values|
  {
    if |values| == 0 then Ok([])
    else
      var init := values[..|values| - 1];
      var last := values[|values| - 1];
      match ScanValues(c, init)
      case Err(e) => Err(e)
      case Ok(prev) =>
        if last.None? then Err(DnNull)
        else if c.render(last.value) in Renders(c, prev) then Err(AlreadyExists)
        else
          assert forall i :: 0 <= i < |prev| ==> Renders(c, prev)[i] == c.render(values[i].value);
          Ok(prev + [last.value])
  }

  /** A list `setValues` accepts: non-empty if the attribute is required, at most one
      element if it is single-valued, no null element, no two equal string forms. */
  predicate AcceptableList<DN>(c: DnCodec<DN>, meta: Meta, vs: seq<Option<DN>>) {
    (|vs| > 0 || !meta.isRequired) && (meta.isMultiValued || |vs| <= 1)
    && AllPresent(vs) && DistinctRenders(c, vs)
  }

  /** The list a `setValues` argument stands for: a null list is read as an empty one. */
  function ListOrEmpty<DN>(values: Option<seq<Option<DN>>>): seq<Option<DN>> {
    if values.None? then [] else values.value
  }

  /** `setValues(List<DN>)`, with a null list handled as the empty list its first test groups
      it with. The checks come in the source's order: an empty list on a required attribute,
      then more than one element on a single-valued attribute (before any element is looked
      at), then the element scan. A rejected list changes nothing; an accepted one is stored
      as `setValue` stores its single value. */
  function SetValues<DN>(c: DnCodec<DN>, meta: Meta, s: AttrState<DN>, values: Option<seq<Option<DN>>>): (r: Step<DN>)
    ensures r.status.Failure? ==> r.next == s
    ensures r.status == Success <==> AcceptableList(c, meta, ListOrEmpty(values))
    ensures r.status == Success && meta.requiresAdminAction ==>
      r.next.active == s.active && r.next.hasPending && r.next.pendingSeparate
      && |r.next.pending| == |ListOrEmpty(values)|
      && forall i :: 0 <= i < |ListOrEmpty(values)| ==> ListOrEmpty(values)[i] == Some(r.next.pending[i])
    ensures r.status == Success && !meta.requiresAdminAction ==>
      r.next.pending == r.next.active && !r.next.pendingSeparate && r.next.hasPending == s.hasPending
      && |r.next.active| == |ListOrEmpty(values)|
      && forall i :: 0 <= i < |ListOrEmpty(values)| ==> ListOrEmpty(values)[i] == Some(r.next.active[i])
    ensures Consistent(s) ==> Consistent(r.next)
  {
    var vs := ListOrEmpty(values);
    if |vs| == 0 && meta.isRequired then Step(Failure(IsRequired), s)
    else if !meta.isMultiValued && |vs| > 1 then Step(Failure(SingleValued), s)
    else
      match ScanValues(c, vs)
      case Err(e) => Step(Failure(e), s)
      case Ok(dns) => Step(Success, Install(meta, s, dns))
  }

  /** What the empty-list branch of `setValues` does before it falls through: a new empty
      pending list is staged, or the active list object is emptied in place (and with it the
      pending list when that is the same object). */
  function ClearedForEmpty<DN>(meta: Meta, s: AttrState<DN>): (r: AttrState<DN>)
    ensures meta.requiresAdminAction ==> r.active == s.active && r.pending == [] && r.hasPending && r.pendingSeparate
    ensures !meta.requiresAdminAction ==>
              r.active == [] && r.pending == (if s.pendingSeparate then s.pending else [])
              && r.hasPending == s.hasPending && r.pendingSeparate == s.pendingSeparate
    ensures Consistent(s) ==> Consistent(r)
  {
    if meta.requiresAdminAction then s.(pending := [], hasPending := true, pendingSeparate := true)
    else s.(active := [], pending := if s.pendingSeparate then s.pending else [])
  }

  /** `setValues(List<DN>)` as written: a null list on an attribute that is not required
      passes the emptiness test, is cleared as an empty list would be, and then has its size
      taken, which throws a `NullPointerException`. Every other argument behaves as in
      `SetValues`. */
  function SetValuesAsWritten<DN>(c: DnCodec<DN>, meta: Meta, s: AttrState<DN>, values: Option<seq<Option<DN>>>): (r: Step<DN>)
    ensures values.None? && !meta.isRequired ==> r == Step(Failure(NullDereference), ClearedForEmpty(meta, s))
    ensures values.Some? || meta.isRequired ==> r == SetValues(c, meta, s, values)
  {
    if values.None? && !meta.isRequired then Step(Failure(NullDereference), ClearedForEmpty(meta, s))
    else SetValues(c, meta, s, values)
  }

  /** The discrepancy: as written, a null list on an optional attribute whose active list is
      not empty fails, yet it has changed the attribute: the active list is emptied (immediate
      mode) or an empty pending list is staged (staged mode). */
  lemma NullListFailsAfterClearing<DN>(c: DnCodec<DN>, meta: Meta, s: AttrState<DN>)
    requires !meta.isRequired && |s.active| > 0 && Consistent(s)
    ensures var r := SetValuesAsWritten(c, meta, s, None);
      r.status == Failure(NullDereference)
      && (meta.requiresAdminAction ==> r.next.pending == [] && r.next.hasPending)
      && (!meta.requiresAdminAction ==> r.next != s && r.next.active == [])
  {
  }

  /** Corrected, a null list is the empty list: it fails only on a required attribute, and on
      an optional one it succeeds, leaving no active values in immediate mode and an empty
      staged pending list in staged mode. */
  lemma NullListReadAsEmpty<DN>(c: DnCodec<DN>, meta: Meta, s: AttrState<DN>)
    ensures SetValues(c, meta, s, None) == SetValues(c, meta, s, Some([]))
    ensures SetValues(c, meta, s, None).status == (if meta.isRequired then Failure(IsRequired) else Success)
    ensures !meta.isRequired && !meta.requiresAdminAction ==> SetValues(c, meta, s, None).next.active == []
    ensures !meta.isRequired && meta.requiresAdminAction ==>
      SetValues(c, meta, s, None).next.pending == [] && SetValues(c, meta, s, None).next.active == s.active
  {
  }

  /** `applyPendingValues()`: nothing happens without pending values; otherwise the pending
      list becomes the active list and the pending flag is cleared. */
  function ApplyPending<DN>(s: AttrState<DN>): (r: AttrState<DN>)
    ensures !s.hasPending ==> r == s
    ensures r.active == PendingValues(s)
    ensures !r.hasPending
    ensures Consistent(s) ==> Consistent(r) && r.pending == r.active
  {
    if !s.hasPending then s
    else s.(active := s.pending, hasPending := false, pendingSeparate := false)
  }

  /** Once the scan of a prefix has failed, the scan of the whole list fails the same way. */
  lemma {:induction false} ScanErrorPersists<DN>(c: DnCodec<DN>, values: seq<Option<DN>>, k: nat)
    requires k <= |values|
    requires ScanValues(c, values[..k]).Err?
    ensures ScanValues(c, values) == ScanValues(c, values[..k])
    decreases |values| - k
  {
    if k < |values| {
      var init := values[..|values| - 1];
      assert init[..k] == values[..k];
      ScanErrorPersists(c, init, k);
    } else {
      assert values[..k] == values;
    }
  }

  /** The scan reports the first offending element: a null one as `DnNull`, one repeating
      the string form of an earlier element as `AlreadyExists`. */
  lemma {:induction false} ScanReportsFirstOffender<DN>(c: DnCodec<DN>, values: seq<Option<DN>>, k: nat)
    requires k < |values|
    requires AllPresent(values[..k]) && DistinctRenders(c, values[..k])
    ensures values[k].None? ==> ScanValues(c, values) == Err(DnNull)
    ensures values[k].Some? && (exists j :: 0 <= j < k && c.render(values[j].value) == c.render(values[k].value)) ==>
      ScanValues(c, values) == Err(AlreadyExists)
  {
    var pre := values[..k + 1];
    assert pre[..k] == values[..k];
    var prev := ScanValues(c, values[..k]).value;
    if values[k].Some? && (exists j :: 0 <= j < k && c.render(values[j].value) == c.render(values[k].value)) {
      var j :| 0 <= j < k && c.render(values[j].value) == c.render(values[k].value);
      assert Renders(c, prev)[j] == c.render(values[k].value);
    }
    if values[k].None? || (exists j :: 0 <= j < k && c.render(values[j].value) == c.render(values[k].value)) {
      ScanErrorPersists(c, values, k + 1);
    }
  }

  /** The four ways `setValues` fails, each leaving both lists as they were: an empty list on
      a required attribute, several elements on a single-valued attribute whatever they are,
      a null element, two elements with the same string form. */
  lemma SetValuesRejects<DN>(c: DnCodec<DN>, meta: Meta, s: AttrState<DN>, vs: seq<Option<DN>>)
    ensures |vs| == 0 && meta.isRequired ==> SetValues(c, meta, s, Some(vs)) == Step(Failure(IsRequired), s)
    ensures !meta.isMultiValued && |vs| > 1 ==> SetValues(c, meta, s, Some(vs)) == Step(Failure(SingleValued), s)
    ensures (exists i :: 0 <= i < |vs| && vs[i].None?) ==> SetValues(c, meta, s, Some(vs)).status.Failure?
    ensures (exists i, j :: 0 <= i < j < |vs| && vs[i].Some? && vs[j].Some? && c.render(vs[i].value) == c.render(vs[j].value)) ==>
      SetValues(c, meta, s, Some(vs)).status.Failure?
    ensures SetValues(c, meta, s, Some(vs)).status.Failure? ==> SetValues(c, meta, s, Some(vs)).next == s
  {
  }

  /** Staged mode: an accepted list leaves the active list alone until the pending values are
      applied; then it becomes active, and applying once more changes nothing. */
  lemma StagedUpdateTakesEffectOnApply<DN>(c: DnCodec<DN>, meta: Meta, s: AttrState<DN>, vs: seq<Option<DN>>)
    requires meta.requiresAdminAction
    requires SetValues(c, meta, s, Some(vs)).status == Success
    ensures var staged := SetValues(c, meta, s, Some(vs)).next;
      staged.active == s.active
      && PendingValues(staged) == staged.pending
      && ApplyPending(staged).active == staged.pending
      && ApplyPending(ApplyPending(staged)) == ApplyPending(staged)
  {
  }

  /** Immediate mode: after an accepted list the pending list is the active list, and
      applying pending values leaves both lists as they are. */
  lemma ImmediateUpdateIsUnified<DN>(c: DnCodec<DN>, meta: Meta, s: AttrState<DN>, vs: seq<Option<DN>>)
    requires !meta.requiresAdminAction
    requires SetValues(c, meta, s, Some(vs)).status == Success
    ensures var next := SetValues(c, meta, s, Some(vs)).next;
      next.pending == next.active
      && PendingValues(next) == next.active
      && ApplyPending(next).active == next.active
      && ApplyPending(next).pending == next.pending
  {
  }

  /** Applying pending values is idempotent, and it makes active what `pendingValues()` showed. */
  lemma ApplyPendingIdempotent<DN>(s: AttrState<DN>)
    ensures ApplyPending(ApplyPending(s)) == ApplyPending(s)
    ensures ActiveValue(ApplyPending(s)) == PendingValue(s)
  {
  }
}
