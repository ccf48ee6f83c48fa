/**
 * An already-parsed XML document, as the settings code walks it through
 * tinyxml2: each element has a name, attributes, optional text and child
 * elements in document order. Loading the file is outside the model; its
 * outcome is a `LoadResult`.
 */
module Xml {
  import opened Wrappers

  datatype Element = Element(
    name: string,
    attributes: map<string, string>,
    text: Option<string>,       // GetText(): None where tinyxml2 returns a null pointer
    children: seq<Element>)

  /** LoadFile either fails, or yields a document whose first element (if any) is the root. */
  datatype LoadResult = LoadError | Loaded(root: Option<Element>)

  /** GetText() of an element whose text the caller knows to be present. */
  function TextOf(e: Element): string
  {
    e.text.GetOr("")
  }

  /** Every element of `es` whose name is in `names` carries text. */
  predicate TextsPresent(es: seq<Element>, names: set<string>)
  {
    forall k :: 0 <= k < |es| && es[k].name in names ==> es[k].text.Some?
  }

  /**
   * What a loop `for e in es: if e.name == name: v = e.text` leaves in `v`
   * when `v` starts empty: the text of the last element called `name`.
   */
  function LastTextOf(es: seq<Element>, name: string): string
  {
    if es == [] then ""
    else if es[|es| - 1].name == name then TextOf(es[|es| - 1])
    else LastTextOf(es[..|es| - 1], name)
  }

  /** LastTextOf is the text of the last element with that name. */
  lemma {:induction false} LastTextIsLast(es: seq<Element>, name: string, k: nat)
    requires k < |es| && es[k].name == name
    requires forall j :: k < j < |es| ==> es[j].name != name
    ensures LastTextOf(es, name) == TextOf(es[k])
  {
    if k < |es| - 1 {
      LastTextIsLast(es[..|es| - 1], name, k);
    }
  }

  /** With no element of that name the value stays empty. */
  lemma {:induction false} LastTextAbsent(es: seq<Element>, name: string)
    requires forall j :: 0 <= j < |es| ==> es[j].name != name
    ensures LastTextOf(es, name) == ""
  {
    if es != [] {
      LastTextAbsent(es[..|es| - 1], name);
    }
  }
}
