/** The string form of distinguished names, as far as the configuration attribute relies on it. */
module DnSyntax {
  import opened ConfigResult

  /** `DN.valueOf` (which throws on a malformed string, here `None`) and `DN.toString`,
      the parser and renderer of the string form of a DN defined by RFC 4514. */
  datatype DnCodec<!DN> = DnCodec(parse: string -> Option<DN>, render: DN -> string)

  /** The parser reads back what the renderer writes. */
  ghost predicate Sound<DN(!new)>(c: DnCodec<DN>) {
    forall d :: c.parse(c.render(d)) == Some(d)
  }

  /** The string forms of a list of DNs, in order. */
  function Renders<DN>(c: DnCodec<DN>, dns: seq<DN>): seq<string> {
    seq(|dns|, i requires 0 <= i < |dns| => c.render(dns[i]))
  }

  /** A list of strings as a Java list whose elements are all non-null. */
  function Present(ss: seq<string>): seq<Option<string>> {
    seq(|ss|, i requires 0 <= i < |ss| => Some(ss[i]))
  }

  /** No string occurs twice. */
  predicate Distinct(s: seq<string>) {
    forall i, j :: 0 <= i < j < |s| ==> s[i] != s[j]
  }

  /** Every element of a Java list is non-null. */
  predicate AllPresent<T>(vs: seq<Option<T>>) {
    forall i :: 0 <= i < |vs| ==> vs[i].Some?
  }

  /** No two non-null DNs of a Java list have the same string form. */
  predicate DistinctRenders<DN>(c: DnCodec<DN>, vs: seq<Option<DN>>) {
    forall i, j :: 0 <= i < j < |vs| && vs[i].Some? && vs[j].Some? ==>
      c.render(vs[i].value) != c.render(vs[j].value)
  }
}
