/** The string side of a DN configuration attribute: judging one raw value, decoding a list
    of raw strings into the canonical value set (`stringsToValues`) and rendering the active
    and pending lists (`activeValuesToStrings`, `pendingValuesToStrings`). */
module ValueCodec {
  import opened ConfigResult
  import opened DnSyntax
  import opened AttributeState

  /** What `valueIsAcceptable` returns: true, or false with the reason it writes. */
  datatype Verdict = Acceptable | Rejected(reason: ErrorKind)

  /** `valueIsAcceptable`: a value is acceptable exactly when it is not null and parses as a DN. */
  function ValueIsAcceptable<DN>(c: DnCodec<DN>, value: Option<string>): (r: Verdict)
    ensures r.Acceptable? <==> value.Some? && c.parse(value.value).Some?
    ensures value.None? ==> r == Rejected(DnNull)
    ensures value.Some? && r.Rejected? ==> r.reason == DnCannotParse
  {
    if value.None? then Rejected(DnNull)
    else if c.parse(value.value).None? then Rejected(DnCannotParse)
    else Acceptable
  }

  /** Every rendered DN is an acceptable value. */
  lemma RenderedValueIsAcceptable<DN(!new)>(c: DnCodec<DN>, d: DN)
    requires Sound(c)
    ensures ValueIsAcceptable(c, Some(c.render(d))) == Acceptable
  {
  }

  /** The canonical string form of one raw string, when it is not null and parses. */
  function CanonicalForm<DN>(c: DnCodec<DN>, raw: Option<string>): Option<string> {
    if raw.None? then None
    else match c.parse(raw.value)
      case None => None
      case Some(d) => Some(c.render(d))
  }

  /** Every raw string is non-null and parses. */
  predicate AllCanonical<DN>(c: DnCodec<DN>, raw: seq<Option<string>>) {
    forall i :: 0 <= i < |raw| ==> CanonicalForm(c, raw[i]).Some?
  }

  /** The canonical forms of the raw strings that parse, in order, repeats included. */
  function ParsedForms<DN>(c: DnCodec<DN>, raw: seq<Option<string>>): seq<string>
    decreases |raw|
  {
    if |raw| == 0 then []
    else
      var init := ParsedForms(c, raw[..|raw| - 1]);
      match CanonicalForm(c, raw[|raw| - 1])
      case None => init
      case Some(s) => init + [s]
  }

  /** The position of the first occurrence of `x` in `s`. */
  function FirstIndex(s: seq<string>, x: string): (k: nat)
    requires x in s
    ensures k < |s| && s[k] == x && x !in s[..k]
  {
    if s[0] == x then 0
    else
      var k := 1 + FirstIndex(s[1..], x);
      assert s[1..][..k - 1] == s[1..k];
      k
  }

  /** The elements of `s` without repeats, as a `LinkedHashSet` built by adding them in order holds them. */
  function Dedup(s: seq<string>): (r: seq<string>)
    ensures Distinct(r)
    ensures forall x :: x in r <==> x in s
    decreases |s|
  {
    if |s| == 0 then []
    else
      var init := s[..|s| - 1];
      var x := s[|s| - 1];
      assert s == init + [x];
      var prev := Dedup(init);
      if x in prev then prev else prev + [x]
  }

  lemma {:induction false} FirstIndexInPrefix(p: seq<string>, x: string, y: string)
    requires y in p
    ensures FirstIndex(p + [x], y) == FirstIndex(p, y)
  {
    if p[0] != y {
      assert (p + [x])[1..] == p[1..] + [x];
      FirstIndexInPrefix(p[1..], x, y);
    }
  }

  /** Repeats are dropped keeping first-occurrence order: the survivors appear in the order
      of their first occurrences in the input. */
  lemma {:induction false} DedupKeepsFirstOccurrenceOrder(s: seq<string>)
    ensures forall i, j :: 0 <= i < j < |Dedup(s)| ==> FirstIndex(s, Dedup(s)[i]) < FirstIndex(s, Dedup(s)[j])
    decreases |s|
  {
    if |s| > 0 {
      var init := s[..|s| - 1];
      var x := s[|s| - 1];
      assert s == init + [x];
      DedupKeepsFirstOccurrenceOrder(init);
      var prev := Dedup(init);
      forall y | y in prev
        ensures FirstIndex(s, y) == FirstIndex(init, y)
      {
        FirstIndexInPrefix(init, x, y);
      }
      if x !in prev {
        assert x !in init;
        assert s[..|init|] == init;
      }
    }
  }

  /** A list without repeats is its own deduplication. */
  lemma {:induction false} DedupOfDistinct(s: seq<string>)
    requires Distinct(s)
    ensures Dedup(s) == s
    decreases |s|
  {
    if |s| > 0 {
      var init := s[..|s| - 1];
      assert s == init + [s[|s| - 1]];
      DedupOfDistinct(init);
    }
  }

  /** `reportError`: throws unless failures are allowed, in which case the bad string is
      skipped and the set built so far is kept. */
  function ReportError(allowFailures: bool, e: ErrorKind, acc: seq<string>): Result<seq<string>> {
    if allowFailures then Ok(acc) else Err(e)
  }

  /** The decoding loop of `stringsToValues` over the raw strings, in order: a null or
      unparseable string goes through `reportError`; a parsed DN adds its canonical form to
      the set unless it is there already. Its result is the deduplicated list of the
      canonical forms of the strings that parse. */
  function CollectValues<DN>(c: DnCodec<DN>, raw: seq<Option<string>>, allowFailures: bool): (r: Result<seq<string>>)
    ensures r.Ok? <==> allowFailures || AllCanonical(c, raw)
    ensures r.Err? ==> r.error == DnNull || r.error == DnCannotParse
    ensures r.Ok? ==> r.value == Dedup(ParsedForms(c, raw))
    decreases |raw|
  {
    if |raw| == 0 then Ok([])
    else
      var init := raw[..|raw| - 1];
      var last := raw[|raw| - 1];
      match CollectValues(c, init, allowFailures)
      case Err(e) => Err(e)
      case Ok(acc) =>
        assert forall i :: 0 <= i < |init| ==> init[i] == raw[i];
        if last.None? then ReportError(allowFailures, DnNull, acc)
        else
          match c.parse(last.value)
          case None => ReportError(allowFailures, DnCannotParse, acc)
          case Some(dn) =>
            var s := c.render(dn);
            Ok(if s in acc then acc else acc + [s])
  }

  /** `stringsToValues`: an absent or empty list gives the required error or an empty set;
      more than one string on a single-valued attribute fails before any is parsed; then the
      strings are decoded; a required attribute left with nothing fails. The result never
      holds a repeat, and holds the canonical forms of the parsed strings in first-occurrence
      order. */
  function StringsToValues<DN>(c: DnCodec<DN>, meta: Meta, raw: Option<seq<Option<string>>>, allowFailures: bool): (r: Result<seq<string>>)
    ensures (raw.None? || |raw.value| == 0) ==> r == (if meta.isRequired then Err(IsRequired) else Ok([]))
    ensures raw.Some? && !meta.isMultiValued && |raw.value| > 1 ==> r == Err(SingleValued)
    ensures r.Ok? ==> Distinct(r.value)
    ensures r.Ok? && meta.isRequired ==> |r.value| > 0
    ensures r.Ok? && raw.Some? ==> r.value == Dedup(ParsedForms(c, raw.value))
    ensures allowFailures && r.Err? ==> r.error == IsRequired || r.error == SingleValued
    ensures raw.Some? && (meta.isMultiValued || |raw.value| <= 1) && !allowFailures && !AllCanonical(c, raw.value) ==> r.Err?
    ensures raw.Some? && |raw.value| > 0 ==>
      (r.Ok? <==> (meta.isMultiValued || |raw.value| <= 1) && (allowFailures || AllCanonical(c, raw.value))
                  && (!meta.isRequired || |Dedup(ParsedForms(c, raw.value))| > 0))
  {
    if raw.None? || |raw.value| == 0 then
      if meta.isRequired then Err(IsRequired) else Ok([])
    else if !meta.isMultiValued && |raw.value| > 1 then Err(SingleValued)
    else
      match CollectValues(c, raw.value, allowFailures)
      case Err(e) => Err(e)
      case Ok(valueSet) => if meta.isRequired && |valueSet| == 0 then Err(IsRequired) else Ok(valueSet)
  }

  /** Both copies of a repeated string parse to the same canonical form. */
  lemma ParsedFormsOfRepeat<DN>(c: DnCodec<DN>, x: string)
    requires c.parse(x).Some?
    ensures ParsedForms(c, [Some(x), Some(x)]) == [c.render(c.parse(x).value), c.render(c.parse(x).value)]
  {
    var s := c.render(c.parse(x).value);
    assert [Some(x), Some(x)][..1] == [Some(x)];
    assert [Some(x)][..0] == [];
    assert ParsedForms(c, []) == [];
    assert ParsedForms(c, [Some(x)]) == [s];
  }

  /** A repeat is dropped. */
  lemma DedupOfRepeat(s: string)
    ensures Dedup([s, s]) == [s]
  {
    assert [s, s][..1] == [s];
    assert [s][..0] == [];
    assert Dedup([]) == [];
    assert Dedup([s]) == [s];
  }

  /** Repeated strings collapse into one value instead of being rejected. */
  lemma RepeatsCollapse<DN>(c: DnCodec<DN>, meta: Meta, x: string, allowFailures: bool)
    requires meta.isMultiValued
    requires c.parse(x).Some?
    ensures StringsToValues(c, meta, Some([Some(x), Some(x)]), allowFailures) == Ok([c.render(c.parse(x).value)])
  {
    var raw := [Some(x), Some(x)];
    var s := c.render(c.parse(x).value);
    assert CanonicalForm(c, raw[0]) == Some(s) && CanonicalForm(c, raw[1]) == Some(s);
    assert AllCanonical(c, raw);
    ParsedFormsOfRepeat(c, x);
    DedupOfRepeat(s);
    var collected := CollectValues(c, raw, allowFailures);
    assert collected.Ok?;
    assert collected.value == [s];
  }

  /** `activeValuesToStrings`: the string form of each active DN, once and in order. */
  function ActiveValuesToStrings<DN>(c: DnCodec<DN>, s: AttrState<DN>): (r: seq<string>)
    ensures |r| == |s.active|
    ensures forall i :: 0 <= i < |r| ==> r[i] == c.render(s.active[i])
  {
    Renders(c, s.active)
  }

  /** `pendingValuesToStrings`: the string forms of the pending list, or null when there
      are no pending values. */
  function PendingValuesToStrings<DN>(c: DnCodec<DN>, s: AttrState<DN>): (r: Option<seq<string>>)
    ensures r.Some? <==> s.hasPending
    ensures r.Some? ==> |r.value| == |s.pending| && forall i :: 0 <= i < |s.pending| ==> r.value[i] == c.render(s.pending[i])
  {
    if s.hasPending then Some(Renders(c, s.pending)) else None
  }

  /** Parsing the string forms of DNs and rendering them again gives the same strings. */
  lemma {:induction false} ParsedFormsOfRenders<DN(!new)>(c: DnCodec<DN>, dns: seq<DN>)
    requires Sound(c)
    ensures ParsedForms(c, Present(Renders(c, dns))) == Renders(c, dns)
    ensures AllCanonical(c, Present(Renders(c, dns)))
    decreases |dns|
  {
    if |dns| > 0 {
      var init := dns[..|dns| - 1];
      assert Present(Renders(c, dns))[..|dns| - 1] == Present(Renders(c, init));
      ParsedFormsOfRenders(c, init);
      assert Renders(c, dns) == Renders(c, init) + [c.render(dns[|dns| - 1])];
    }
  }

  /** The decoding reads back what the rendering writes: for a list of DNs that respects the
      attribute's rules and has distinct string forms, `stringsToValues` applied to their
      strings, failures not allowed, gives exactly those strings in order. */
  lemma StringsToValuesRoundTrip<DN(!new)>(c: DnCodec<DN>, meta: Meta, dns: seq<DN>)
    requires Sound(c)
    requires Distinct(Renders(c, dns))
    requires |dns| > 0 || !meta.isRequired
    requires meta.isMultiValued || |dns| <= 1
    ensures StringsToValues(c, meta, Some(Present(Renders(c, dns))), false) == Ok(Renders(c, dns))
  {
    ParsedFormsOfRenders(c, dns);
    DedupOfDistinct(Renders(c, dns));
  }

  /** The round trip for the active values of an attribute. */
  lemma ActiveValuesRoundTrip<DN(!new)>(c: DnCodec<DN>, meta: Meta, s: AttrState<DN>)
    requires Sound(c)
    requires Distinct(ActiveValuesToStrings(c, s))
    requires |s.active| > 0 || !meta.isRequired
    requires meta.isMultiValued || |s.active| <= 1
    ensures StringsToValues(c, meta, Some(Present(ActiveValuesToStrings(c, s))), false) == Ok(ActiveValuesToStrings(c, s))
  {
    StringsToValuesRoundTrip(c, meta, s.active);
  }
}
