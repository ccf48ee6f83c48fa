/**
 * The `--enable` argument: a comma separated list of check categories, each
 * checked against a fixed vocabulary. `ParseEnable` states what one call of
 * Settings::addEnabled does to the enabled set and which message it returns.
 */
module Enable {
  import opened Text

  /** Message for an empty list element (a leading, doubled or trailing comma, or ""). */
  const EmptyMessage: string := "cppcheck: --enable parameter is empty"

  /** Message for a non-empty name outside the vocabulary; it quotes the name. */
  function UnknownMessage(name: string): (m: string)
    ensures Contains(m, "'" + name + "'")
    ensures m != EmptyMessage && m != ""
  {
    var prefix := "cppcheck: there is no --enable parameter with the name ";
    assert OccursAt(prefix + "'" + name + "'", "'" + name + "'", |prefix|);
    prefix + "'" + name + "'"
  }

  /**
   * The categories a user may enable. "internal" belongs to it only in builds
   * made with CHECK_INTERNAL.
   */
  function Vocabulary(checkInternal: bool): set<string>
  {
    {"warning", "style", "performance", "portability", "information", "missingInclude", "unusedFunction"}
      + (if checkInternal then {"internal"} else {})
  }

  /** A name that one call handles without error. */
  predicate Accepted(name: string, checkInternal: bool)
  {
    name == "all" || name in Vocabulary(checkInternal)
  }

  /** What an accepted name adds: "all" is every category but "internal"; "information" brings "missingInclude". */
  function Effect(name: string, checkInternal: bool): set<string>
  {
    if name == "all" then Vocabulary(checkInternal) - {"internal"}
    else if name in Vocabulary(checkInternal) then
      {name} + (if name == "information" then {"missingInclude"} else {})
    else {}
  }

  /** The message for a rejected name. */
  function Rejection(name: string): string
  {
    if name == "" then EmptyMessage else UnknownMessage(name)
  }

  /** Returned message ("" for success) and the enabled set afterwards. */
  datatype Outcome = Outcome(message: string, enabled: set<string>)

  /** One list element. */
  function ApplyOne(enabled: set<string>, name: string, checkInternal: bool): Outcome
  {
    if Accepted(name, checkInternal) then Outcome("", enabled + Effect(name, checkInternal))
    else Outcome(Rejection(name), enabled)
  }

  /** The list elements in order, stopping at the first rejected one. */
  function ApplyAll(enabled: set<string>, names: seq<string>, checkInternal: bool): Outcome
  {
    if names == [] then Outcome("", enabled)
    else
      var prev := ApplyAll(enabled, names[..|names| - 1], checkInternal);
      if prev.message != "" then prev
      else ApplyOne(prev.enabled, names[|names| - 1], checkInternal)
  }

  /** One call of addEnabled(str) on the set `enabled`. */
  function ParseEnable(enabled: set<string>, str: string, checkInternal: bool): Outcome
  {
    ApplyAll(enabled, Split(str, ','), checkInternal)
  }

  /** Union of the effects of `names`. */
  function Effects(names: seq<string>, checkInternal: bool): set<string>
  {
    if names == [] then {}
    else Effects(names[..|names| - 1], checkInternal) + Effect(names[|names| - 1], checkInternal)
  }

  predicate AllAccepted(names: seq<string>, checkInternal: bool)
  {
    forall k :: 0 <= k < |names| ==> Accepted(names[k], checkInternal)
  }

  /** A one-element list is that element alone. */
  lemma ApplySingle(enabled: set<string>, a: string, ci: bool)
    ensures ApplyAll(enabled, [a], ci) == ApplyOne(enabled, a, ci)
  {
    assert [a][..0] == [];
  }

  /** A two-element list applies the second element only after the first succeeded. */
  lemma ApplyPair(enabled: set<string>, a: string, b: string, ci: bool)
    ensures ApplyAll(enabled, [a, b], ci) ==
      var first := ApplyOne(enabled, a, ci);
      if first.message != "" then first else ApplyOne(first.enabled, b, ci)
  {
    assert [a, b][..1] == [a];
    ApplySingle(enabled, a, ci);
  }

  /** Appending list elements after a rejected one changes nothing. */
  lemma {:induction false} ApplyAllStops(enabled: set<string>, xs: seq<string>, ys: seq<string>, ci: bool)
    requires ApplyAll(enabled, xs, ci).message != ""
    ensures ApplyAll(enabled, xs + ys, ci) == ApplyAll(enabled, xs, ci)
    decreases |ys|
  {
    if ys != [] {
      var zs := xs + ys[..|ys| - 1];
      assert (xs + ys)[..|xs + ys| - 1] == zs;
      ApplyAllStops(enabled, xs, ys[..|ys| - 1], ci);
    } else {
      assert xs + ys == xs;
    }
  }

  /** Reading the list from the front: the first element, then the rest if it was accepted. */
  lemma {:induction false} ApplyAllCons(enabled: set<string>, x: string, xs: seq<string>, ci: bool)
    ensures ApplyAll(enabled, [x] + xs, ci) ==
      var first := ApplyOne(enabled, x, ci);
      if first.message != "" then first else ApplyAll(first.enabled, xs, ci)
    decreases |xs|
  {
    if xs == [] {
      assert [x] + xs == [x];
      ApplySingle(enabled, x, ci);
    } else {
      var init := xs[..|xs| - 1];
      assert ([x] + xs)[..|xs|] == [x] + init;
      ApplyAllCons(enabled, x, init, ci);
    }
  }

  /** A list without a comma is one element. */
  lemma ParseEnableSingle(enabled: set<string>, name: string, ci: bool)
    requires ',' !in name
    ensures ParseEnable(enabled, name, ci) == ApplyOne(enabled, name, ci)
  {
    SplitNone(name, ',');
    ApplySingle(enabled, name, ci);
  }

  /** Accepting one more element keeps the prefix accepted and adds that element's effect. */
  lemma AcceptedStep(done: seq<string>, name: string, ci: bool)
    requires AllAccepted(done, ci) && Accepted(name, ci)
    ensures AllAccepted(done + [name], ci)
    ensures Effects(done + [name], ci) == Effects(done, ci) + Effect(name, ci)
  {
    assert (done + [name])[..|done|] == done;
  }

  /**
   * Reading the element that ends at the comma `next`, once the elements
   * `done` before it were all accepted: an empty element is rejected with
   * EmptyMessage; a rejected element decides the outcome of the whole list;
   * an accepted one joins `done`, and the rest of the list follows the comma.
   */
  lemma ReadElement(enabled: set<string>, str: string, from: nat, next: nat, done: seq<string>, ci: bool, o: Outcome)
    returns (doneAfter: seq<string>)
    requires from <= next < |str| && next == IndexOfFrom(str, ',', from)
    requires Split(str, ',') == done + Split(str[from..], ',')
    requires AllAccepted(done, ci)
    requires o == ApplyOne(enabled + Effects(done, ci), str[from..next], ci)
    ensures next == from ==> o == Outcome(EmptyMessage, enabled + Effects(done, ci))
    ensures o.message != "" ==> ParseEnable(enabled, str, ci) == o
    ensures doneAfter == done + [str[from..next]]
    ensures o.message == "" ==>
      && AllAccepted(doneAfter, ci)
      && o.enabled == enabled + Effects(doneAfter, ci)
      && Split(str, ',') == doneAfter + Split(str[next + 1..], ',')
  {
    doneAfter := done + [str[from..next]];
    var seg := str[from..next];
    if next == from {
      EmptyElement(enabled + Effects(done, ci), seg, ci);
    }
    var rest := Split(str[next + 1..], ',');
    assert Split(str, ',') == done + [seg] + rest by {
      SplitStep(str, ',', from, next);
    }
    if o.message != "" {
      FirstRejection(enabled, done, seg, rest, ci);
    } else {
      AcceptedStep(done, seg, ci);
    }
  }

  /** Reading the element after the last comma, once the elements `done` before it were all accepted, ends the list. */
  lemma ReadLastElement(enabled: set<string>, str: string, from: nat, done: seq<string>, ci: bool, o: Outcome)
    requires from <= |str| && IndexOfFrom(str, ',', from) == |str|
    requires Split(str, ',') == done + Split(str[from..], ',')
    requires AllAccepted(done, ci)
    requires o == ApplyOne(enabled + Effects(done, ci), str[from..], ci)
    ensures from == |str| ==> o == Outcome(EmptyMessage, enabled + Effects(done, ci))
    ensures ParseEnable(enabled, str, ci) == o
  {
    var seg := str[from..];
    if from == |str| {
      EmptyElement(enabled + Effects(done, ci), seg, ci);
    }
    assert Split(str, ',') == done + [seg] by {
      assert ',' !in seg;
      SplitNone(seg, ',');
    }
    if o.message != "" {
      FirstRejection(enabled, done, seg, [], ci);
      assert done + [seg] + [] == done + [seg];
    } else {
      ApplyAllAccepted(enabled, done, ci);
      assert (done + [seg])[..|done|] == done;
    }
  }

  /** An empty element is rejected with EmptyMessage. */
  lemma EmptyElement(enabled: set<string>, name: string, ci: bool)
    requires |name| == 0
    ensures ApplyOne(enabled, name, ci) == Outcome(EmptyMessage, enabled)
  {
    assert name == "";
    assert !Accepted(name, ci);
  }

  /** An empty list element is rejected and changes nothing. */
  lemma ParseEnableEmpty(enabled: set<string>, ci: bool)
    ensures ParseEnable(enabled, "", ci) == Outcome(EmptyMessage, enabled)
  {
    ParseEnableSingle(enabled, "", ci);
  }

  /** When every element is accepted the call succeeds and adds exactly their effects. */
  lemma {:induction false} ApplyAllAccepted(enabled: set<string>, xs: seq<string>, ci: bool)
    requires AllAccepted(xs, ci)
    ensures ApplyAll(enabled, xs, ci) == Outcome("", enabled + Effects(xs, ci))
  {
    if xs != [] {
      ApplyAllAccepted(enabled, xs[..|xs| - 1], ci);
    }
  }

  /** A successful call accepted every element. */
  lemma {:induction false} ApplyAllSuccess(enabled: set<string>, xs: seq<string>, ci: bool)
    requires ApplyAll(enabled, xs, ci).message == ""
    ensures AllAccepted(xs, ci)
  {
    if xs != [] {
      var prev := ApplyAll(enabled, xs[..|xs| - 1], ci);
      ApplyAllSuccess(enabled, xs[..|xs| - 1], ci);
    }
  }

  /**
   * The first rejected element decides the message, and the elements before it
   * keep their effect.
   */
  lemma FirstRejection(enabled: set<string>, pre: seq<string>, bad: string, post: seq<string>, ci: bool)
    requires AllAccepted(pre, ci) && !Accepted(bad, ci)
    ensures ApplyAll(enabled, pre + [bad] + post, ci) == Outcome(Rejection(bad), enabled + Effects(pre, ci))
  {
    ApplyAllAccepted(enabled, pre, ci);
    assert (pre + [bad])[..|pre|] == pre;
    assert Rejection(bad) != "";
    ApplyAllStops(enabled, pre + [bad], post, ci);
  }

  /** addEnabled succeeds exactly when every comma-separated element is "all" or a category. */
  lemma ParseEnableSucceeds(enabled: set<string>, str: string, ci: bool)
    ensures ParseEnable(enabled, str, ci).message == "" <==> AllAccepted(Split(str, ','), ci)
    ensures AllAccepted(Split(str, ','), ci) ==>
      ParseEnable(enabled, str, ci).enabled == enabled + Effects(Split(str, ','), ci)
  {
    if ParseEnable(enabled, str, ci).message == "" {
      ApplyAllSuccess(enabled, Split(str, ','), ci);
    }
    if AllAccepted(Split(str, ','), ci) {
      ApplyAllAccepted(enabled, Split(str, ','), ci);
    }
  }

  /** The enabled set never leaves the vocabulary. */
  lemma {:induction false} ApplyAllInVocabulary(enabled: set<string>, xs: seq<string>, ci: bool)
    requires enabled <= Vocabulary(ci)
    ensures ApplyAll(enabled, xs, ci).enabled <= Vocabulary(ci)
  {
    if xs != [] {
      ApplyAllInVocabulary(enabled, xs[..|xs| - 1], ci);
    }
  }

  /** The enabled set only grows. */
  lemma {:induction false} ApplyAllGrows(enabled: set<string>, xs: seq<string>, ci: bool)
    ensures enabled <= ApplyAll(enabled, xs, ci).enabled
  {
    if xs != [] {
      ApplyAllGrows(enabled, xs[..|xs| - 1], ci);
    }
  }

  /** "all" adds every category except "internal", even when the build knows "internal". */
  lemma EnableAll(enabled: set<string>, ci: bool)
    ensures ParseEnable(enabled, "all", ci) == Outcome("", enabled + (Vocabulary(ci) - {"internal"}))
    ensures "internal" !in enabled ==> "internal" !in ParseEnable(enabled, "all", ci).enabled
  {
    SplitNone("all", ',');
    ApplySingle(enabled, "all", ci);
  }

  /** "information" also enables "missingInclude". */
  lemma EnableInformation(enabled: set<string>, ci: bool)
    ensures ParseEnable(enabled, "information", ci) == Outcome("", enabled + {"information", "missingInclude"})
  {
    SplitNone("information", ',');
    ApplySingle(enabled, "information", ci);
    InformationEffect(ci);
  }

  lemma InformationEffect(ci: bool)
    ensures Accepted("information", ci)
    ensures Effect("information", ci) == {"information", "missingInclude"}
  {
    assert "information" in Vocabulary(ci);
  }

  /** A list of two known names enables exactly those two. */
  lemma EnableStylePerformance(enabled: set<string>, ci: bool)
    ensures ParseEnable(enabled, "style,performance", ci) == Outcome("", enabled + {"style", "performance"})
  {
    SplitStylePerformance();
    ApplyStylePerformance(enabled, ci);
  }

  lemma SplitStylePerformance()
    ensures Split("style,performance", ',') == ["style", "performance"]
  {
    assert "style" + "," + "performance" == "style,performance";
    SplitTwo("style", "performance");
  }

  lemma ApplyStylePerformance(enabled: set<string>, ci: bool)
    ensures ApplyAll(enabled, ["style", "performance"], ci) == Outcome("", enabled + {"style", "performance"})
  {
    ApplyPair(enabled, "style", "performance", ci);
    assert ApplyOne(enabled, "style", ci) == Outcome("", enabled + {"style"});
    assert ApplyOne(enabled + {"style"}, "performance", ci) == Outcome("", enabled + {"style", "performance"});
  }

  /** "a,b" splits into a and b when neither holds a comma. */
  lemma SplitTwo(a: string, b: string)
    requires ',' !in a && ',' !in b
    ensures Split(a + "," + b, ',') == [a, b]
  {
    assert Join([a, b], ',') == a + "," + b;
    SplitJoin([a, b], ',');
  }

  /** An empty argument is reported as empty. */
  lemma EnableEmpty(enabled: set<string>, ci: bool)
    ensures ParseEnable(enabled, "", ci) == Outcome(EmptyMessage, enabled)
  {
    SplitNone("", ',');
    ApplySingle(enabled, "", ci);
  }

  /** A lone comma is an empty first element. */
  lemma EnableLoneComma(enabled: set<string>, ci: bool)
    ensures ParseEnable(enabled, ",", ci) == Outcome(EmptyMessage, enabled)
  {
    assert "" + "," + "" == ",";
    SplitTwo("", "");
    ApplyPair(enabled, "", "", ci);
  }

  /** In "x," the unknown name is met before the empty element and is reported. */
  lemma EnableUnknownBeforeTrailingComma(enabled: set<string>, ci: bool)
    ensures ParseEnable(enabled, "x,", ci) == Outcome(UnknownMessage("x"), enabled)
  {
    assert "x" + "," + "" == "x,";
    SplitTwo("x", "");
    ApplyPair(enabled, "x", "", ci);
  }

  /** An unknown name is reported, quoted, and nothing is enabled. */
  lemma EnableUnknown(enabled: set<string>, ci: bool)
    ensures ParseEnable(enabled, "bogus", ci) == Outcome(UnknownMessage("bogus"), enabled)
  {
    SplitNone("bogus", ',');
    ApplySingle(enabled, "bogus", ci);
  }
}
