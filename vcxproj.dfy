/**
 * Import of a Visual Studio project (.vcxproj). The project file is read
 * into three lists (the project configurations, the compiled files and the
 * item definition groups); then every compiled file is paired with every
 * configuration and every group whose Condition holds for that
 * configuration, in that nesting order, giving one FileSettings each.
 */
module Vcxproj {
  import opened Wrappers
  import opened Text
  import opened Xml
  import opened Platform
  import opened Compilation

  // ---- ProjectConfiguration ----

  /** One `<ProjectConfiguration>`: its Configuration and Platform texts. */
  datatype ProjectConfiguration = ProjectConfiguration(configuration: string, platform: string)

  /** Every Configuration and Platform child carries text (GetText() is copied into a std::string). */
  predicate ConfigurationTextsPresent(cfg: Element)
  {
    TextsPresent(cfg.children, {"Configuration", "Platform"})
  }

  /** The configuration read from `cfg`: the last Configuration and the last Platform child, "" when absent. */
  function ConfigurationOf(cfg: Element): ProjectConfiguration
  {
    ProjectConfiguration(LastTextOf(cfg.children, "Configuration"), LastTextOf(cfg.children, "Platform"))
  }

  /** Appending one element to the scanned prefix. */
  lemma LastTextOfSnoc(es: seq<Element>, e: Element, name: string)
    ensures LastTextOf(es + [e], name) == if e.name == name then TextOf(e) else LastTextOf(es, name)
  {
    assert (es + [e])[..|es|] == es;
  }

  /** The ProjectConfiguration constructor: one pass over the children of `cfg`. */
  method ReadProjectConfiguration(cfg: Element) returns (p: ProjectConfiguration)
    requires ConfigurationTextsPresent(cfg)
    ensures p == ConfigurationOf(cfg)
  {
    var configuration, platform := "", "";
    var i := 0;
    while i < |cfg.children|
      invariant i <= |cfg.children|
      invariant configuration == LastTextOf(cfg.children[..i], "Configuration")
      invariant platform == LastTextOf(cfg.children[..i], "Platform")
    {
      var e := cfg.children[i];
      LastTextOfSnoc(cfg.children[..i], e, "Configuration");
      LastTextOfSnoc(cfg.children[..i], e, "Platform");
      assert cfg.children[..i + 1] == cfg.children[..i] + [e];
      if e.name == "Configuration" {
        configuration := e.text.value;
      } else if e.name == "Platform" {
        platform := e.text.value;
      }
      i := i + 1;
    }
    assert cfg.children[..i] == cfg.children;
    p := ProjectConfiguration(configuration, platform);
  }

  // ---- ItemDefinitionGroup ----

  /** One `<ItemDefinitionGroup>`: its Condition ("" when absent) and its compiler settings. */
  datatype ItemDefinitionGroup = ItemDefinitionGroup(
    condition: string,
    preprocessorDefinitions: string,
    additionalIncludePaths: string)

  /** The children of all ClCompile elements among `es`, in document order. */
  function ClCompileSettings(es: seq<Element>): seq<Element>
  {
    if es == [] then []
    else
      var e := es[|es| - 1];
      ClCompileSettings(es[..|es| - 1]) + (if e.name == "ClCompile" then e.children else [])
  }

  lemma ClCompileSettingsSnoc(es: seq<Element>, e: Element)
    ensures ClCompileSettings(es + [e]) == ClCompileSettings(es) + (if e.name == "ClCompile" then e.children else [])
  {
    assert (es + [e])[..|es|] == es;
  }

  /** Every PreprocessorDefinitions and AdditionalIncludeDirectories setting carries text. */
  predicate GroupTextsPresent(idg: Element)
  {
    TextsPresent(ClCompileSettings(idg.children), {"PreprocessorDefinitions", "AdditionalIncludeDirectories"})
  }

  function AttributeOr(e: Element, name: string, default: string): string
  {
    if name in e.attributes then e.attributes[name] else default
  }

  /** The group read from `idg`: the last setting of each kind over all its ClCompile children. */
  function GroupOf(idg: Element): ItemDefinitionGroup
  {
    var settings := ClCompileSettings(idg.children);
    ItemDefinitionGroup(
      AttributeOr(idg, "Condition", ""),
      LastTextOf(settings, "PreprocessorDefinitions"),
      LastTextOf(settings, "AdditionalIncludeDirectories"))
  }

  /** The ItemDefinitionGroup constructor: a pass over the ClCompile children and, within each, over its settings. */
  method ReadItemDefinitionGroup(idg: Element) returns (g: ItemDefinitionGroup)
    requires GroupTextsPresent(idg)
    ensures g == GroupOf(idg)
  {
    var condition := "";
    if "Condition" in idg.attributes {
      condition := idg.attributes["Condition"];
    }
    var defines, includes := "", "";
    var i := 0;
    while i < |idg.children|
      invariant i <= |idg.children|
      invariant defines == LastTextOf(ClCompileSettings(idg.children[..i]), "PreprocessorDefinitions")
      invariant includes == LastTextOf(ClCompileSettings(idg.children[..i]), "AdditionalIncludeDirectories")
    {
      var e1 := idg.children[i];
      ghost var before := ClCompileSettings(idg.children[..i]);
      assert idg.children[..i + 1] == idg.children[..i] + [e1];
      ClCompileSettingsSnoc(idg.children[..i], e1);
      if e1.name != "ClCompile" {
        assert before + [] == before;
        i := i + 1;
        continue;
      }
      defines, includes := ReadClCompile(before, e1.children, defines, includes);
      i := i + 1;
    }
    assert idg.children[..i] == idg.children;
    g := ItemDefinitionGroup(condition, defines, includes);
  }

  /** The inner loop over the settings of one ClCompile element, carrying on from those read before it. */
  method ReadClCompile(ghost before: seq<Element>, settings: seq<Element>, defines: string, includes: string)
    returns (defines': string, includes': string)
    requires defines == LastTextOf(before, "PreprocessorDefinitions")
    requires includes == LastTextOf(before, "AdditionalIncludeDirectories")
    ensures defines' == LastTextOf(before + settings, "PreprocessorDefinitions")
    ensures includes' == LastTextOf(before + settings, "AdditionalIncludeDirectories")
  {
    defines', includes' := defines, includes;
    var j := 0;
    assert before + settings[..0] == before;
    while j < |settings|
      invariant j <= |settings|
      invariant defines' == LastTextOf(before + settings[..j], "PreprocessorDefinitions")
      invariant includes' == LastTextOf(before + settings[..j], "AdditionalIncludeDirectories")
    {
      var e := settings[j];
      LastTextOfSnoc(before + settings[..j], e, "PreprocessorDefinitions");
      LastTextOfSnoc(before + settings[..j], e, "AdditionalIncludeDirectories");
      assert before + settings[..j + 1] == (before + settings[..j]) + [e];
      if e.name == "PreprocessorDefinitions" {
        defines' := TextOf(e);
      } else if e.name == "AdditionalIncludeDirectories" {
        includes' := TextOf(e);
      }
      j := j + 1;
    }
    assert settings[..j] == settings;
  }

  // ---- conditionIsTrue ----

  const ConfigurationPlaceholder: string := "$(Configuration)"
  const PlatformPlaceholder: string := "$(Platform)"

  /** The substitutions end: neither value may bring a '$' of its own. */
  predicate Substitutable(p: ProjectConfiguration)
  {
    '$' !in p.configuration && '$' !in p.platform
  }

  /** The condition text with every $(Configuration) and then every $(Platform) replaced. */
  function SubstitutedCondition(condition: string, p: ProjectConfiguration): string
    requires Substitutable(p)
  {
    Substitute(Substitute(condition, ConfigurationPlaceholder, p.configuration), PlatformPlaceholder, p.platform)
  }

  /**
   * Whether the group applies to configuration `p`. `hasEqualComparison`
   * stands for tokenizing the text, building its syntax tree and looking for
   * an `==` whose two operands have the same text.
   */
  predicate ConditionHolds(g: ItemDefinitionGroup, p: ProjectConfiguration, hasEqualComparison: string -> bool)
    requires Substitutable(p)
  {
    hasEqualComparison(SubstitutedCondition(g.condition, p))
  }

  /** ItemDefinitionGroup::conditionIsTrue: two find-erase-insert loops, then the `==` scan. */
  method ConditionIsTrue(g: ItemDefinitionGroup, p: ProjectConfiguration, hasEqualComparison: string -> bool)
    returns (b: bool)
    requires Substitutable(p)
    ensures b == ConditionHolds(g, p, hasEqualComparison)
  {
    var c := g.condition;
    var pos := Find(c, ConfigurationPlaceholder);
    while pos >= 0
      invariant pos == Find(c, ConfigurationPlaceholder)
      invariant Substitute(c, ConfigurationPlaceholder, p.configuration)
             == Substitute(g.condition, ConfigurationPlaceholder, p.configuration)
      decreases Count(c, '$')
    {
      ghost var before := c;
      SpliceCount(c, ConfigurationPlaceholder, p.configuration, pos);
      SubstituteStep(c, ConfigurationPlaceholder, p.configuration, pos);
      c := c[..pos] + c[pos + 16..];
      c := c[..pos] + p.configuration + c[pos..];
      assert c == before[..pos] + p.configuration + before[pos + 16..];
      pos := Find(c, ConfigurationPlaceholder);
    }
    SubstituteAbsent(c, ConfigurationPlaceholder, p.configuration);
    ghost var first := c;
    pos := Find(c, PlatformPlaceholder);
    while pos >= 0
      invariant pos == Find(c, PlatformPlaceholder)
      invariant Substitute(c, PlatformPlaceholder, p.platform) == Substitute(first, PlatformPlaceholder, p.platform)
      decreases Count(c, '$')
    {
      ghost var before := c;
      SpliceCount(c, PlatformPlaceholder, p.platform, pos);
      SubstituteStep(c, PlatformPlaceholder, p.platform, pos);
      c := c[..pos] + c[pos + 11..];
      c := c[..pos] + p.platform + c[pos..];
      assert c == before[..pos] + p.platform + before[pos + 11..];
      pos := Find(c, PlatformPlaceholder);
    }
    SubstituteAbsent(c, PlatformPlaceholder, p.platform);
    b := hasEqualComparison(c);
  }

  /** A group without a Condition holds for a configuration exactly when the scan accepts the empty text. */
  lemma EmptyConditionHolds(g: ItemDefinitionGroup, p: ProjectConfiguration, hasEqualComparison: string -> bool)
    requires Substitutable(p) && g.condition == ""
    ensures ConditionHolds(g, p, hasEqualComparison) == hasEqualComparison("")
  {
    EmptyContainsNothing(ConfigurationPlaceholder);
    SubstituteAbsent("", ConfigurationPlaceholder, p.configuration);
    EmptyContainsNothing(PlatformPlaceholder);
    SubstituteAbsent("", PlatformPlaceholder, p.platform);
  }

  /**
   * Substituting the single occurrence of `pat` in `pre + pat + post`, where
   * `pre` and the value hold no `pat[0]` and `post` holds no `pat`.
   */
  lemma SubstituteOnce(pre: string, pat: string, v: string, post: string)
    requires pat != [] && pat[0] !in v && pat[0] !in pre
    requires !Contains(post, pat)
    ensures Substitute(pre + pat + post, pat, v) == pre + v + post
  {
    var s := pre + pat + post;
    assert s[|pre|..|pre| + |pat|] == pat;
    forall j | 0 <= j < |pre| ensures !OccursAt(s, pat, j) {
      OccursAtStart(s, pat, j);
      assert s[j] == pre[j];
    }
    FindIs(s, pat, |pre|);
    SubstituteStep(s, pat, v, |pre|);
    assert s[..|pre|] == pre;
    assert s[|pre| + |pat|..] == post;
    NoOccurrenceConcat(pre + v, post, pat);
    SubstituteAbsent((pre + v) + post, pat, v);
  }

  /**
   * The two passes run one after the other, so a platform name can complete a
   * $(Configuration) that the first pass has already gone past: with platform
   * "uration)" and any configuration name, the condition
   * "$(Config$(Platform)" comes out as "$(Configuration)", placeholder and all.
   */
  lemma PlaceholderReappears(p: ProjectConfiguration)
    requires Substitutable(p) && p.platform == "uration)"
    ensures SubstitutedCondition("$(Config" + PlatformPlaceholder, p) == ConfigurationPlaceholder
  {
    var c := "$(Config" + PlatformPlaceholder;
    SampleLacksConfiguration();
    SubstituteAbsent(c, ConfigurationPlaceholder, p.configuration);
    SamplePlatformAt8();
    SubstituteStep(c, PlatformPlaceholder, p.platform, 8);
    SampleSplice(p.platform);
    ConfigurationLacksPlatform();
    SubstituteAbsent(ConfigurationPlaceholder, PlatformPlaceholder, p.platform);
  }

  lemma SampleSplice(v: string)
    requires v == "uration)"
    ensures var c := "$(Config" + PlatformPlaceholder; c[..8] + v + c[19..] == ConfigurationPlaceholder
  {
    var c := "$(Config" + PlatformPlaceholder;
    assert c[..8] == "$(Config";
    assert c[19..] == [];
  }

  lemma SampleLacksConfiguration()
    ensures !Contains("$(Config" + PlatformPlaceholder, ConfigurationPlaceholder)
  {
    var c := "$(Config" + PlatformPlaceholder;
    forall j | 0 <= j <= |c| ensures !OccursAt(c, ConfigurationPlaceholder, j) {
      if j == 0 {
        OccursAtChar(c, ConfigurationPlaceholder, 0, 8);
      } else {
        if j < |c| && j != 8 {
          assert c[j] != '$';
        }
        OccursAtStart(c, ConfigurationPlaceholder, j);
      }
    }
  }

  lemma SamplePlatformAt8()
    ensures Find("$(Config" + PlatformPlaceholder, PlatformPlaceholder) == 8
  {
    var c := "$(Config" + PlatformPlaceholder;
    assert c[8..19] == PlatformPlaceholder;
    forall j | 0 <= j < 8 ensures !OccursAt(c, PlatformPlaceholder, j) {
      if j == 0 {
        OccursAtChar(c, PlatformPlaceholder, 0, 2);
      } else {
        OccursAtStart(c, PlatformPlaceholder, j);
      }
    }
    FindIs(c, PlatformPlaceholder, 8);
  }

  lemma ConfigurationLacksPlatform()
    ensures !Contains(ConfigurationPlaceholder, PlatformPlaceholder)
  {
    var r := ConfigurationPlaceholder;
    forall j | 0 <= j <= |r| ensures !OccursAt(r, PlatformPlaceholder, j) {
      if j == 0 {
        OccursAtChar(r, PlatformPlaceholder, 0, 2);
      } else {
        if j < |r| {
          assert r[j] != '$';
        }
        OccursAtStart(r, PlatformPlaceholder, j);
      }
    }
  }

  /** The condition Visual Studio writes for a configuration/platform pair. */
  function StandardCondition(want: string): string
  {
    "'" + ConfigurationPlaceholder + "|" + PlatformPlaceholder + "'=='" + want + "'"
  }

  /** What follows $(Configuration) in the standard condition holds no $(Configuration). */
  lemma NoConfigurationAfter(tail: string)
    requires '$' !in tail
    ensures !Contains("|" + PlatformPlaceholder + tail, ConfigurationPlaceholder)
  {
    var post := "|" + PlatformPlaceholder + tail;
    forall j | 0 <= j <= |post| ensures !OccursAt(post, ConfigurationPlaceholder, j) {
      if j == 1 {
        assert post[3] == 'P';
        OccursAtChar(post, ConfigurationPlaceholder, j, 2);
      } else {
        if 1 < j < 12 {
          assert post[j] == PlatformPlaceholder[j - 1];
        } else if 12 <= j < |post| {
          assert post[j] == tail[j - 12];
        }
        OccursAtStart(post, ConfigurationPlaceholder, j);
      }
    }
  }

  /** The first pass replaces the one $(Configuration) of the standard condition. */
  lemma StandardConditionFirstPass(want: string, configuration: string)
    requires '$' !in want && '$' !in configuration
    ensures Substitute(StandardCondition(want), ConfigurationPlaceholder, configuration)
         == "'" + configuration + "|" + PlatformPlaceholder + "'=='" + want + "'"
  {
    var tail := "'=='" + want + "'";
    assert '$' !in tail;
    var post := "|" + PlatformPlaceholder + tail;
    assert StandardCondition(want) == "'" + ConfigurationPlaceholder + post;
    NoConfigurationAfter(tail);
    SubstituteOnce("'", ConfigurationPlaceholder, configuration, post);
    var x := "'" + configuration;
    ConcatAssoc(x, "|" + PlatformPlaceholder, tail);
    ConcatAssoc(x, "|", PlatformPlaceholder);
    ConcatAssoc(x + "|" + PlatformPlaceholder, "'=='" + want, "'");
    ConcatAssoc(x + "|" + PlatformPlaceholder, "'=='", want);
  }

  /** The second pass replaces the one $(Platform). */
  lemma StandardConditionSecondPass(want: string, configuration: string, platform: string)
    requires '$' !in want && '$' !in configuration && '$' !in platform
    ensures Substitute("'" + configuration + "|" + PlatformPlaceholder + "'=='" + want + "'", PlatformPlaceholder, platform)
         == "'" + configuration + "|" + platform + "'=='" + want + "'"
  {
    var tail := "'=='" + want + "'";
    assert '$' !in tail;
    var pre := "'" + configuration + "|";
    ConcatAssoc(pre + PlatformPlaceholder, "'=='" + want, "'");
    ConcatAssoc(pre + PlatformPlaceholder, "'=='", want);
    NoStartNoOccurrence(tail, PlatformPlaceholder);
    SubstituteOnce(pre, PlatformPlaceholder, platform, tail);
    ConcatAssoc(pre + platform, "'=='" + want, "'");
    ConcatAssoc(pre + platform, "'=='", want);
  }

  /**
   * The usual Condition `'$(Configuration)|$(Platform)'=='Debug|Win32'`
   * becomes `'<configuration>|<platform>'=='Debug|Win32'`.
   */
  lemma StandardConditionText(want: string, p: ProjectConfiguration)
    requires Substitutable(p) && '$' !in want
    ensures SubstitutedCondition(StandardCondition(want), p) == "'" + p.configuration + "|" + p.platform + "'=='" + want + "'"
  {
    StandardConditionFirstPass(want, p.configuration);
    StandardConditionSecondPass(want, p.configuration, p.platform);
  }

  // ---- the substitution loops without the '$' requirement ----

  /** One turn of a find-erase-insert loop with any value `v`: the first `pat` replaced by `v`. */
  function ReplaceFirst(c: string, pat: string, v: string): string
  {
    var i := Find(c, pat);
    if i < 0 then c else Splice(c, i, |pat|, v)
  }

  /** `c` with the `n` characters from `i` on replaced by `v`. */
  function Splice(c: string, i: nat, n: nat, v: string): string
    requires i + n <= |c|
  {
    c[..i] + v + c[i + n..]
  }

  /** The text after `n` turns of the loop; once `pat` is gone a turn changes nothing. */
  function ReplaceTurns(c: string, pat: string, v: string, n: nat): string
    decreases n
  {
    if n == 0 then c else ReplaceTurns(ReplaceFirst(c, pat, v), pat, v, n - 1)
  }

  function Repeat(s: string, n: nat): string
  {
    if n == 0 then [] else s + Repeat(s, n - 1)
  }

  /**
   * A pattern cut into a head and a tail such that its first character occurs
   * only at the start of the head: "$(Plat" and "form)" for $(Platform).
   */
  predicate Pieces(h: string, t: string)
  {
    h != [] && t != [] && h[0] != t[0] && h[0] !in h[1..] && h[0] !in t
  }

  /** Text made of a part without the pattern's first character, then head, pattern and `j` heads. */
  predicate EvenForm(c: string, h: string, t: string, m: nat, j: nat)
  {
    Pieces(h, t) && m <= |c| && h[0] !in c[..m] && c[m..] == h + (h + t) + Repeat(h, j)
  }

  /** Text made of a part without the pattern's first character, then pattern, tail and `j` heads. */
  predicate OddForm(c: string, h: string, t: string, m: nat, j: nat)
  {
    Pieces(h, t) && m <= |c| && h[0] !in c[..m] && c[m..] == (h + t) + (t + Repeat(h, j))
  }

  lemma ReplaceAt(c: string, pat: string, v: string, i: nat)
    requires Find(c, pat) == i
    ensures i + |pat| <= |c| && ReplaceFirst(c, pat, v) == Splice(c, i, |pat|, v)
  {
  }

  lemma SpliceParts(c: string, i: nat, n: nat, v: string, m: nat)
    requires m <= i && i + n <= |c|
    ensures m <= |Splice(c, i, n, v)|
    ensures Splice(c, i, n, v)[..m] == c[..m]
    ensures Splice(c, i, n, v)[m..] == c[m..i] + v + c[i + n..]
  {
  }

  lemma FindInEven(c: string, h: string, t: string, m: nat, j: nat)
    requires EvenForm(c, h, t, m, j)
    ensures Find(c, h + t) == m + |h|
  {
    var pat := h + t;
    var d := c[m..];
    assert d[|h|..|h| + |pat|] == pat;
    assert c[m + |h|..m + |h| + |pat|] == d[|h|..|h| + |pat|];
    forall k | 0 <= k < m + |h| ensures !OccursAt(c, pat, k) {
      if k < m {
        OccursAtStart(c, pat, k);
        assert c[k] == c[..m][k];
      } else if k == m {
        OccursAtChar(c, pat, k, |h|);
        assert c[m + |h|] == d[|h|] == h[0];
      } else {
        OccursAtStart(c, pat, k);
        assert c[k] == d[k - m] == h[1..][k - m - 1];
      }
    }
    FindIs(c, pat, m + |h|);
  }

  lemma FindInOdd(c: string, h: string, t: string, m: nat, j: nat)
    requires OddForm(c, h, t, m, j)
    ensures Find(c, h + t) == m
  {
    var pat := h + t;
    var d := c[m..];
    assert d[..|pat|] == pat;
    assert c[m..m + |pat|] == d[..|pat|];
    forall k | 0 <= k < m ensures !OccursAt(c, pat, k) {
      OccursAtStart(c, pat, k);
      assert c[k] == c[..m][k];
    }
    FindIs(c, pat, m);
  }

  /** One turn on an even form: the head and the value close up into the pattern again. */
  lemma EvenToOdd(c: string, h: string, t: string, m: nat, j: nat)
    requires EvenForm(c, h, t, m, j)
    ensures OddForm(ReplaceFirst(c, h + t, t + t + h + h), h, t, m, j + 2)
  {
    var pat := h + t;
    var v := t + t + h + h;
    var i := m + |h|;
    FindInEven(c, h, t, m, j);
    ReplaceAt(c, pat, v, i);
    SpliceParts(c, i, |pat|, v, m);
    var d := c[m..];
    assert c[m..i] == d[..|h|] == h;
    assert c[i + |pat|..] == d[|h| + |pat|..] == Repeat(h, j);
    ValueClosesPattern(h, t, j);
  }

  /** Head, value and heads regroup as pattern, tail and two more heads. */
  lemma ValueClosesPattern(h: string, t: string, j: nat)
    ensures h + (t + t + h + h) + Repeat(h, j) == (h + t) + (t + Repeat(h, j + 2))
  {
    assert Repeat(h, j + 2) == h + (h + Repeat(h, j));
  }

  /** One turn on an odd form: the value puts two tails before a new head and pattern. */
  lemma OddToEven(c: string, h: string, t: string, m: nat, j: nat)
    requires OddForm(c, h, t, m, j)
    ensures EvenForm(ReplaceFirst(c, h + t, t + t + h + h), h, t, m + 2 * |t|, j)
  {
    var pat := h + t;
    var v := t + t + h + h;
    FindInOdd(c, h, t, m, j);
    ReplaceAt(c, pat, v, m);
    SpliceParts(c, m, |pat|, v, m);
    var d := c[m..];
    assert c[m..m] == [];
    assert c[m + |pat|..] == d[|pat|..] == t + Repeat(h, j);
    var c' := Splice(c, m, |pat|, v);
    assert c'[m..] == v + (t + Repeat(h, j));
    SplitAfterTails(c', h, t, m, Repeat(h, j));
  }

  lemma SplitAfterTails(c: string, h: string, t: string, m: nat, tail: string)
    requires Pieces(h, t) && m <= |c| && h[0] !in c[..m]
    requires c[m..] == t + t + h + h + (t + tail)
    ensures m + 2 * |t| <= |c| && h[0] !in c[..m + 2 * |t|]
    ensures c[m + 2 * |t|..] == h + (h + t) + tail
  {
    assert c[..m + 2 * |t|] == c[..m] + c[m..][..2 * |t|];
    assert c[m..][..2 * |t|] == t + t;
    assert c[m + 2 * |t|..] == c[m..][2 * |t|..];
  }

  /** From the even form, every text the loop reaches still holds the pattern. */
  lemma {:induction false} EvenForever(c: string, h: string, t: string, m: nat, j: nat, n: nat)
    requires EvenForm(c, h, t, m, j)
    ensures Contains(ReplaceTurns(c, h + t, t + t + h + h, n), h + t)
    decreases n, 1
  {
    if n == 0 {
      FindInEven(c, h, t, m, j);
      assert Contains(c, h + t);
    } else {
      var c' := ReplaceFirst(c, h + t, t + t + h + h);
      TurnsFront(c, h + t, t + t + h + h, n);
      EvenToOdd(c, h, t, m, j);
      OddForever(c', h, t, m, j + 2, n - 1);
      assert Contains(ReplaceTurns(c', h + t, t + t + h + h, n - 1), h + t);
    }
  }

  /** From the odd form, every text the loop reaches still holds the pattern. */
  lemma {:induction false} OddForever(c: string, h: string, t: string, m: nat, j: nat, n: nat)
    requires OddForm(c, h, t, m, j)
    ensures Contains(ReplaceTurns(c, h + t, t + t + h + h, n), h + t)
    decreases n, 0
  {
    if n == 0 {
      FindInOdd(c, h, t, m, j);
      assert Contains(c, h + t);
    } else {
      var c' := ReplaceFirst(c, h + t, t + t + h + h);
      TurnsFront(c, h + t, t + t + h + h, n);
      OddToEven(c, h, t, m, j);
      EvenForever(c', h, t, m + 2 * |t|, j, n - 1);
      assert Contains(ReplaceTurns(c', h + t, t + t + h + h, n - 1), h + t);
    }
  }

  lemma TurnsFront(c: string, pat: string, v: string, n: nat)
    requires n > 0
    ensures ReplaceTurns(c, pat, v, n) == ReplaceTurns(ReplaceFirst(c, pat, v), pat, v, n - 1)
  {
  }

  /** A platform name without its own placeholder on which the $(Platform) loop never stops. */
  const LoopingPlatform: string := "form)form)$(Plat$(Plat"

  lemma PlatformPieces()
    ensures Pieces("$(Plat", "form)")
    ensures "$(Plat" + "form)" == PlatformPlaceholder
    ensures LoopingPlatform == "form)" + "form)" + "$(Plat" + "$(Plat"
    ensures !Contains(LoopingPlatform, PlatformPlaceholder)
  {
    forall j | 0 <= j <= |LoopingPlatform| ensures !OccursAt(LoopingPlatform, PlatformPlaceholder, j) {
      if j == 10 || j == 16 {
        OccursAtChar(LoopingPlatform, PlatformPlaceholder, j, 6);
      } else {
        OccursAtStart(LoopingPlatform, PlatformPlaceholder, j);
      }
    }
  }

  /**
   * The $(Platform) loop as written need not end even when the platform name
   * lacks "$(Platform)": on the condition "$(Plat$(Platform)" with platform
   * "form)form)$(Plat$(Plat", every turn leaves a $(Platform) to replace.
   */
  lemma PlatformLoopNeverEnds(n: nat)
    ensures !Contains(LoopingPlatform, PlatformPlaceholder)
    ensures !Contains("$(Plat" + PlatformPlaceholder, ConfigurationPlaceholder)
    ensures Contains(ReplaceTurns("$(Plat" + PlatformPlaceholder, PlatformPlaceholder, LoopingPlatform, n), PlatformPlaceholder)
  {
    LoopingLacksConfiguration();
    PlatformPieces();
    StartForm("$(Plat", "form)");
    EvenForever("$(Plat" + PlatformPlaceholder, "$(Plat", "form)", 0, 0, n);
  }

  /** The first loop finds nothing to replace in "$(Plat$(Platform)". */
  lemma LoopingLacksConfiguration()
    ensures !Contains("$(Plat" + PlatformPlaceholder, ConfigurationPlaceholder)
  {
    var c := "$(Plat" + PlatformPlaceholder;
    forall j | 0 <= j <= |c| ensures !OccursAt(c, ConfigurationPlaceholder, j) {
      if j == 0 || j == 6 {
        OccursAtChar(c, ConfigurationPlaceholder, j, 2);
      } else {
        OccursAtStart(c, ConfigurationPlaceholder, j);
      }
    }
  }

  /** Head followed by the pattern is the even form with nothing before it. */
  lemma StartForm(h: string, t: string)
    requires Pieces(h, t)
    ensures EvenForm(h + (h + t), h, t, 0, 0)
  {
    var c := h + (h + t);
    assert c[..0] == [] && c[0..] == c;
  }

  // ---- toStringList ----

  /** The ';'-separated items of `s`; a final ';' ends the last item rather than starting an empty one. */
  function StringList(s: string): seq<string>
  {
    if s == "" then []
    else
      var parts := Split(s, ';');
      if parts[|parts| - 1] == "" then parts[..|parts| - 1] else parts
  }

  /** Reading on after the separator at `pos2`, from `after`, the position that follows it. */
  lemma StringListStep(s: string, pos1: nat, pos2: nat)
    requires pos1 <= |s| && pos2 == IndexOfFrom(s, ';', pos1) < |s|
    ensures StringList(s[pos1..]) == [s[pos1..pos2]] + StringList(s[pos2 + 1..])
  {
    StringListSplitAt(s, pos1, pos2, pos2 + 1);
  }

  lemma StringListSplitAt(s: string, pos1: nat, pos2: nat, after: nat)
    requires pos1 <= pos2 < |s| && s[pos2] == ';' && after == pos2 + 1
    requires forall k :: pos1 <= k < pos2 ==> s[k] != ';'
    ensures StringList(s[pos1..]) == [s[pos1..pos2]] + StringList(s[after..])
  {
    var item := s[pos1..pos2];
    var rest := Split(s[after..], ';');
    var parts := Split(s[pos1..], ';');
    assert parts == [item] + rest by {
      SplitFrom(s, ';', pos1, pos2);
      SplitAfterSeparator(s, ';', pos2);
    }
    assert s[pos1..] != "" by {
      assert s[pos1..][pos2 - pos1] == ';';
    }
    if after == |s| {
      assert rest == [""] by {
        SplitNone(s[after..], ';');
      }
      assert parts[..|parts| - 1] == [item];
    } else {
      assert parts[|parts| - 1] == rest[|rest| - 1];
      assert parts[..|parts| - 1] == [item] + rest[..|rest| - 1];
    }
  }

  /** The remainder has no separator: it is the last item. */
  lemma StringListLast(s: string, pos1: nat)
    requires pos1 < |s|
    requires forall k :: pos1 <= k < |s| ==> s[k] != ';'
    ensures StringList(s[pos1..]) == [s[pos1..]]
  {
    SplitNone(s[pos1..], ';');
  }

  /** toStringList: the items between semicolons, read with two positions. */
  method ToStringList(s: string) returns (ret: seq<string>)
    ensures ret == StringList(s)
  {
    ret := [];
    var pos1 := 0;
    var pos2 := IndexOfFrom(s, ';', pos1);
    assert s[pos1..] == s;
    while pos2 < |s|
      invariant pos1 <= pos2 <= |s|
      invariant pos2 == IndexOfFrom(s, ';', pos1)
      invariant ret + StringList(s[pos1..]) == StringList(s)
      decreases |s| - pos1
    {
      ghost var read, before := ret, pos1;
      ret := ret + [s[pos1..pos2]];
      pos1 := pos2 + 1;
      StringListAdvance(s, read, before, pos2, pos1);
      if pos1 >= |s| {
        break;
      }
      pos2 := IndexOfFrom(s, ';', pos1);
    }
    if pos1 < |s| {
      StringListLast(s, pos1);
      ret := ret + [s[pos1..]];
    } else {
      StringListDone(s, pos1);
      assert ret + [] == ret;
    }
  }

  /** Taking the item before the separator at `pos2` keeps the items read plus the items left equal to the whole list. */
  lemma StringListAdvance(s: string, read: seq<string>, pos1: nat, pos2: nat, after: nat)
    requires pos1 <= pos2 < |s| && pos2 == IndexOfFrom(s, ';', pos1) && after == pos2 + 1
    requires read + StringList(s[pos1..]) == StringList(s)
    ensures (read + [s[pos1..pos2]]) + StringList(s[after..]) == StringList(s)
  {
    StringListStep(s, pos1, pos2);
    AppendRegroup(read, s[pos1..pos2], StringList(s[pos1..]), StringList(s[after..]), StringList(s));
  }

  lemma AppendRegroup(read: seq<string>, item: string, left: seq<string>, rest: seq<string>, whole: seq<string>)
    requires read + left == whole && left == [item] + rest
    ensures (read + [item]) + rest == whole
  {
    assert (read + [item]) + rest == read + ([item] + rest);
  }

  /** Nothing is left to read once the first position has passed the end. */
  lemma StringListDone(s: string, pos1: nat)
    requires pos1 == |s|
    ensures StringList(s[pos1..]) == []
  {
    assert s[pos1..] == "";
  }

  /** No item holds a ';'. */
  lemma StringListItems(s: string)
    ensures forall k :: 0 <= k < |StringList(s)| ==> ';' !in StringList(s)[k]
  {
    SplitParts(s, ';');
  }

  lemma {:induction false} JoinSnoc(parts: seq<string>, p: string, sep: char)
    requires parts != []
    ensures Join(parts + [p], sep) == Join(parts, sep) + [sep] + p
    decreases |parts|
  {
    if |parts| == 1 {
      assert parts + [p] == [parts[0], p];
      assert [parts[0], p][1..] == [p];
    } else {
      assert (parts + [p])[1..] == parts[1..] + [p];
      JoinSnoc(parts[1..], p, sep);
    }
  }

  /** The last segment is empty exactly when the string is empty or ends with the separator. */
  lemma {:induction false} SplitLastEmpty(s: string, sep: char)
    ensures var parts := Split(s, sep); parts[|parts| - 1] == "" <==> s == "" || s[|s| - 1] == sep
    decreases |s|
  {
    var i := IndexOf(s, sep);
    if i < |s| {
      var t := s[i + 1..];
      var rest := Split(t, sep);
      assert Split(s, sep) == [s[..i]] + rest;
      SplitLastEmpty(t, sep);
      assert rest[|rest| - 1] == "" <==> t == "" || t[|t| - 1] == sep;
      if t == "" {
        assert s[|s| - 1] == s[i];
      } else {
        assert t[|t| - 1] == s[|s| - 1];
      }
    } else {
      assert Split(s, sep) == [s];
    }
  }

  /** Joining the items with ';' gives back the text, less one final ';'. */
  lemma JoinStringList(s: string)
    ensures Join(StringList(s), ';') + (if s != "" && s[|s| - 1] == ';' then ";" else "") == s
  {
    if s != "" {
      var parts := Split(s, ';');
      assert Join(parts, ';') == s by {
        JoinSplit(s, ';');
      }
      SplitLastEmpty(s, ';');
      if s[|s| - 1] == ';' {
        assert |parts| > 1;
        var init := parts[..|parts| - 1];
        assert parts == init + [""];
        assert Join(init, ';') + ";" == s by {
          JoinSnoc(init, "", ';');
        }
        assert StringList(s) == init;
      } else {
        assert StringList(s) == parts;
      }
    }
  }

  // ---- the project file ----

  /** The three lists importVcxproj reads from the project file. */
  datatype Inventory = Inventory(
    configurations: seq<ProjectConfiguration>,
    compileList: seq<string>,
    groups: seq<ItemDefinitionGroup>)

  /** `<ItemGroup Label="ProjectConfigurations">` */
  predicate IsConfigurationList(node: Element)
  {
    node.name == "ItemGroup" && "Label" in node.attributes && node.attributes["Label"] == "ProjectConfigurations"
  }

  /** The ProjectConfiguration children of a configuration list. */
  function ConfigurationsIn(es: seq<Element>): seq<ProjectConfiguration>
  {
    if es == [] then []
    else
      var e := es[|es| - 1];
      ConfigurationsIn(es[..|es| - 1]) + (if e.name == "ProjectConfiguration" then [ConfigurationOf(e)] else [])
  }

  /** The Include attribute of the ClCompile children of another ItemGroup. */
  function CompileFilesIn(es: seq<Element>): seq<string>
  {
    if es == [] then []
    else
      var e := es[|es| - 1];
      CompileFilesIn(es[..|es| - 1]) + (if e.name == "ClCompile" then [AttributeOr(e, "Include", "")] else [])
  }

  /** The lists after reading the top-level elements `nodes`. */
  function InventoryOf(nodes: seq<Element>): Inventory
  {
    if nodes == [] then Inventory([], [], [])
    else
      var inv := InventoryOf(nodes[..|nodes| - 1]);
      var node := nodes[|nodes| - 1];
      if IsConfigurationList(node) then inv.(configurations := inv.configurations + ConfigurationsIn(node.children))
      else if node.name == "ItemGroup" then inv.(compileList := inv.compileList + CompileFilesIn(node.children))
      else if node.name == "ItemDefinitionGroup" then inv.(groups := inv.groups + [GroupOf(node)])
      else inv
  }

  /**
   * What the reads demand of a top-level element: texts for the configuration
   * values and the group settings, an Include on every ClCompile item.
   */
  predicate NodeReadable(node: Element)
  {
    && (IsConfigurationList(node) ==>
          forall k :: 0 <= k < |node.children| && node.children[k].name == "ProjectConfiguration" ==>
            ConfigurationTextsPresent(node.children[k]))
    && (node.name == "ItemGroup" && !IsConfigurationList(node) ==>
          forall k :: 0 <= k < |node.children| && node.children[k].name == "ClCompile" ==>
            "Include" in node.children[k].attributes)
    && (node.name == "ItemDefinitionGroup" ==> GroupTextsPresent(node))
  }

  predicate Readable(root: Element)
  {
    forall k :: 0 <= k < |root.children| ==> NodeReadable(root.children[k])
  }

  /** The ProjectConfiguration children of a configuration list, read in order. */
  method ReadConfigurationList(node: Element) returns (configs: seq<ProjectConfiguration>)
    requires IsConfigurationList(node) && NodeReadable(node)
    ensures configs == ConfigurationsIn(node.children)
  {
    configs := [];
    var k := 0;
    while k < |node.children|
      invariant k <= |node.children|
      invariant configs == ConfigurationsIn(node.children[..k])
    {
      var cfg := node.children[k];
      assert node.children[..k + 1][..k] == node.children[..k];
      if cfg.name == "ProjectConfiguration" {
        var p := ReadProjectConfiguration(cfg);
        configs := configs + [p];
      }
      k := k + 1;
    }
    assert node.children[..k] == node.children;
  }

  /** The Include attributes of the ClCompile children of an ItemGroup, read in order. */
  method ReadCompileList(node: Element) returns (files: seq<string>)
    requires node.name == "ItemGroup" && !IsConfigurationList(node) && NodeReadable(node)
    ensures files == CompileFilesIn(node.children)
  {
    files := [];
    var k := 0;
    while k < |node.children|
      invariant k <= |node.children|
      invariant files == CompileFilesIn(node.children[..k])
    {
      var e := node.children[k];
      assert node.children[..k + 1][..k] == node.children[..k];
      if e.name == "ClCompile" {
        files := files + [e.attributes["Include"]];
      }
      k := k + 1;
    }
    assert node.children[..k] == node.children;
  }

  /** The first loop of importVcxproj: one pass over the children of the root element. */
  method ReadProject(root: Element) returns (inv: Inventory)
    requires Readable(root)
    ensures inv == InventoryOf(root.children)
  {
    var configurations: seq<ProjectConfiguration> := [];
    var compileList: seq<string> := [];
    var groups: seq<ItemDefinitionGroup> := [];
    var n := 0;
    while n < |root.children|
      invariant n <= |root.children|
      invariant Inventory(configurations, compileList, groups) == InventoryOf(root.children[..n])
    {
      var node := root.children[n];
      assert root.children[..n + 1][..n] == root.children[..n];
      assert NodeReadable(node);
      if node.name == "ItemGroup" {
        if "Label" in node.attributes && node.attributes["Label"] == "ProjectConfigurations" {
          var more := ReadConfigurationList(node);
          configurations := configurations + more;
        } else {
          var more := ReadCompileList(node);
          compileList := compileList + more;
        }
      } else if node.name == "ItemDefinitionGroup" {
        var g := ReadItemDefinitionGroup(node);
        groups := groups + [g];
      }
      n := n + 1;
    }
    assert root.children[..n] == root.children;
    inv := Inventory(configurations, compileList, groups);
  }

  // ---- the FileSettings of a project ----

  /** "Win32" selects Win32W and "x64" Win64; any other platform leaves the default. */
  function PlatformOf(platform: string): Option<PlatformType>
  {
    if platform == "Win32" then Some(Win32W)
    else if platform == "x64" then Some(Win64)
    else None
  }

  /** The FileSettings for compiling `file` in configuration `p` with the settings of group `g`. */
  function MakeRecord(projectFile: string, file: string, p: ProjectConfiguration, g: ItemDefinitionGroup,
                      paths: PathHelpers): FileSettings
  {
    FileSettings(
      paths.simplifyPath(paths.getPathFromFilename(projectFile) + file),
      g.preprocessorDefinitions,
      {},
      StringList(g.additionalIncludePaths),
      PlatformOf(p.platform))
  }

  predicate AllSubstitutable(configs: seq<ProjectConfiguration>)
  {
    forall k :: 0 <= k < |configs| ==> Substitutable(configs[k])
  }

  /** The records for one file and one configuration: one per group whose condition holds, in group order. */
  function GroupRecords(projectFile: string, file: string, p: ProjectConfiguration, groups: seq<ItemDefinitionGroup>,
                        paths: PathHelpers, scan: string -> bool): seq<FileSettings>
    requires Substitutable(p)
  {
    if groups == [] then []
    else
      var g := groups[|groups| - 1];
      GroupRecords(projectFile, file, p, groups[..|groups| - 1], paths, scan)
        + (if ConditionHolds(g, p, scan) then [MakeRecord(projectFile, file, p, g, paths)] else [])
  }

  /** The records for one file: configurations in order, each with its groups. */
  function ConfigRecords(projectFile: string, file: string, configs: seq<ProjectConfiguration>,
                         groups: seq<ItemDefinitionGroup>, paths: PathHelpers, scan: string -> bool): seq<FileSettings>
    requires AllSubstitutable(configs)
  {
    if configs == [] then []
    else
      ConfigRecords(projectFile, file, configs[..|configs| - 1], groups, paths, scan)
        + GroupRecords(projectFile, file, configs[|configs| - 1], groups, paths, scan)
  }

  /** All records: files in order, each with its configurations. */
  function FileRecords(projectFile: string, files: seq<string>, configs: seq<ProjectConfiguration>,
                       groups: seq<ItemDefinitionGroup>, paths: PathHelpers, scan: string -> bool): seq<FileSettings>
    requires AllSubstitutable(configs)
  {
    if files == [] then []
    else
      FileRecords(projectFile, files[..|files| - 1], configs, groups, paths, scan)
        + ConfigRecords(projectFile, files[|files| - 1], configs, groups, paths, scan)
  }

  /** The number of (configuration, group) pairs whose condition holds. */
  function MatchCount(configs: seq<ProjectConfiguration>, groups: seq<ItemDefinitionGroup>, scan: string -> bool): nat
    requires AllSubstitutable(configs)
  {
    if configs == [] then 0
    else MatchCount(configs[..|configs| - 1], groups, scan) + GroupMatches(configs[|configs| - 1], groups, scan)
  }

  function GroupMatches(p: ProjectConfiguration, groups: seq<ItemDefinitionGroup>, scan: string -> bool): nat
    requires Substitutable(p)
  {
    if groups == [] then 0
    else GroupMatches(p, groups[..|groups| - 1], scan) + (if ConditionHolds(groups[|groups| - 1], p, scan) then 1 else 0)
  }

  lemma {:induction false} GroupRecordsCount(projectFile: string, file: string, p: ProjectConfiguration,
                                             groups: seq<ItemDefinitionGroup>, paths: PathHelpers, scan: string -> bool)
    requires Substitutable(p)
    ensures |GroupRecords(projectFile, file, p, groups, paths, scan)| == GroupMatches(p, groups, scan)
  {
    if groups != [] {
      GroupRecordsCount(projectFile, file, p, groups[..|groups| - 1], paths, scan);
    }
  }

  lemma {:induction false} ConfigRecordsCount(projectFile: string, file: string, configs: seq<ProjectConfiguration>,
                                              groups: seq<ItemDefinitionGroup>, paths: PathHelpers, scan: string -> bool)
    requires AllSubstitutable(configs)
    ensures |ConfigRecords(projectFile, file, configs, groups, paths, scan)| == MatchCount(configs, groups, scan)
  {
    if configs != [] {
      ConfigRecordsCount(projectFile, file, configs[..|configs| - 1], groups, paths, scan);
      GroupRecordsCount(projectFile, file, configs[|configs| - 1], groups, paths, scan);
    }
  }

  /** Every compiled file gets one record per matching (configuration, group) pair. */
  lemma {:induction false} FileRecordsCount(projectFile: string, files: seq<string>, configs: seq<ProjectConfiguration>,
                                            groups: seq<ItemDefinitionGroup>, paths: PathHelpers, scan: string -> bool)
    requires AllSubstitutable(configs)
    ensures |FileRecords(projectFile, files, configs, groups, paths, scan)| == |files| * MatchCount(configs, groups, scan)
  {
    if files != [] {
      var init := files[..|files| - 1];
      var m := MatchCount(configs, groups, scan);
      FileRecordsCount(projectFile, init, configs, groups, paths, scan);
      ConfigRecordsCount(projectFile, files[|files| - 1], configs, groups, paths, scan);
      assert |files| * m == |init| * m + m by {
        MulSucc(|init|, m);
      }
    }
  }

  lemma MulSucc(n: nat, m: nat)
    ensures (n + 1) * m == n * m + m
  {
  }

  /** A record for (file, configuration, group) exists exactly when the group's condition holds there. */
  lemma GroupRecordsMembers(projectFile: string, file: string, p: ProjectConfiguration,
                            groups: seq<ItemDefinitionGroup>, paths: PathHelpers, scan: string -> bool,
                            r: FileSettings)
    requires Substitutable(p)
    ensures r in GroupRecords(projectFile, file, p, groups, paths, scan) <==>
      exists k :: 0 <= k < |groups| && ConditionHolds(groups[k], p, scan) && r == MakeRecord(projectFile, file, p, groups[k], paths)
  {
    if r in GroupRecords(projectFile, file, p, groups, paths, scan) {
      var k := GroupRecordsSource(projectFile, file, p, groups, paths, scan, r);
    }
    if exists k :: 0 <= k < |groups| && ConditionHolds(groups[k], p, scan) && r == MakeRecord(projectFile, file, p, groups[k], paths) {
      var k :| 0 <= k < |groups| && ConditionHolds(groups[k], p, scan) && r == MakeRecord(projectFile, file, p, groups[k], paths);
      GroupRecordsHas(projectFile, file, p, groups, paths, scan, k);
    }
  }

  /** Every record comes from a group whose condition holds. */
  lemma {:induction false} GroupRecordsSource(projectFile: string, file: string, p: ProjectConfiguration,
                                              groups: seq<ItemDefinitionGroup>, paths: PathHelpers, scan: string -> bool,
                                              r: FileSettings) returns (k: nat)
    requires Substitutable(p)
    requires r in GroupRecords(projectFile, file, p, groups, paths, scan)
    ensures k < |groups| && ConditionHolds(groups[k], p, scan) && r == MakeRecord(projectFile, file, p, groups[k], paths)
  {
    var init := groups[..|groups| - 1];
    if r in GroupRecords(projectFile, file, p, init, paths, scan) {
      k := GroupRecordsSource(projectFile, file, p, init, paths, scan, r);
      assert groups[k] == init[k];
    } else {
      k := |groups| - 1;
    }
  }

  /** Every group whose condition holds gives a record. */
  lemma {:induction false} GroupRecordsHas(projectFile: string, file: string, p: ProjectConfiguration,
                                           groups: seq<ItemDefinitionGroup>, paths: PathHelpers, scan: string -> bool, k: nat)
    requires Substitutable(p)
    requires k < |groups| && ConditionHolds(groups[k], p, scan)
    ensures MakeRecord(projectFile, file, p, groups[k], paths) in GroupRecords(projectFile, file, p, groups, paths, scan)
  {
    var init := groups[..|groups| - 1];
    if k < |init| {
      GroupRecordsHas(projectFile, file, p, init, paths, scan, k);
      assert init[k] == groups[k];
    }
  }

  /** No configuration list, or no compiled file: no records. */
  lemma NothingToPair(projectFile: string, files: seq<string>, configs: seq<ProjectConfiguration>,
                      groups: seq<ItemDefinitionGroup>, paths: PathHelpers, scan: string -> bool)
    requires AllSubstitutable(configs)
    requires files == [] || configs == [] || groups == []
    ensures FileRecords(projectFile, files, configs, groups, paths, scan) == []
  {
    FileRecordsCount(projectFile, files, configs, groups, paths, scan);
    if configs != [] && groups != [] {
      assert files == [];
    } else {
      MatchCountZero(configs, groups, scan);
    }
  }

  lemma {:induction false} MatchCountZero(configs: seq<ProjectConfiguration>, groups: seq<ItemDefinitionGroup>, scan: string -> bool)
    requires AllSubstitutable(configs)
    requires configs == [] || groups == []
    ensures MatchCount(configs, groups, scan) == 0
  {
    if configs != [] {
      MatchCountZero(configs[..|configs| - 1], groups, scan);
    }
  }

  /** Every record keeps no undefs and lists its include paths without ';'. */
  lemma RecordShape(projectFile: string, file: string, p: ProjectConfiguration, g: ItemDefinitionGroup, paths: PathHelpers)
    ensures var r := MakeRecord(projectFile, file, p, g, paths);
      && r.undefs == {}
      && r.defines == g.preprocessorDefinitions
      && (forall k :: 0 <= k < |r.includePaths| ==> ';' !in r.includePaths[k])
      && (r.platformType == Some(Win32W) <==> p.platform == "Win32")
      && (r.platformType == Some(Win64) <==> p.platform == "x64")
      && (r.platformType == None <==> p.platform != "Win32" && p.platform != "x64")
  {
    StringListItems(g.additionalIncludePaths);
  }
}
