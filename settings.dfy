/**
 * The Settings object: the enabled check categories, the target platform
 * description and the list of compilation records imported from a project
 * file. Each method is proved against the function of the module that states
 * what it computes.
 */
module CppcheckSettings {
  import opened Wrappers
  import opened Text
  import opened Xml
  import opened Enable
  import opened Platform
  import opened Compilation
  import opened CompileCommands
  import opened Vcxproj

  /** The importer importProject hands a project file to. */
  datatype Importer = CompileCommandsImporter | VcxprojImporter

  /**
   * Only a file named exactly "compile_commands.json" is read as a compilation
   * database; any other name containing ".vcxproj" is read as a Visual Studio
   * project.
   */
  function SelectImporter(filename: string): (r: Option<Importer>)
    ensures r == Some(CompileCommandsImporter) <==> filename == "compile_commands.json"
    ensures r == Some(VcxprojImporter) <==> filename != "compile_commands.json" && Contains(filename, ".vcxproj")
  {
    if filename == "compile_commands.json" then Some(CompileCommandsImporter)
    else if Contains(filename, ".vcxproj") then Some(VcxprojImporter)
    else None
  }

  /** A compilation database in another directory is not recognised by its path. */
  lemma DatabaseInSubdirectoryIgnored()
    ensures SelectImporter("build/compile_commands.json") == None
  {
    var s := "build/compile_commands.json";
    forall j | 0 <= j <= |s|
      ensures !OccursAt(s, ".vcxproj", j)
    {
      OccursAtStart(s, ".vcxproj", j);
      OccursAtChar(s, ".vcxproj", j, 1);
    }
  }

  /** A name merely containing ".vcxproj", such as a filters file, goes to the project importer. */
  lemma FiltersFileIsProject()
    ensures SelectImporter("app.vcxproj.filters") == Some(VcxprojImporter)
  {
    assert OccursAt("app.vcxproj.filters", ".vcxproj", 3);
  }

  /** What importVcxproj needs to read a project: the texts it dereferences, and configurations it can substitute. */
  predicate ProjectImportable(root: Element)
  {
    Readable(root) && AllSubstitutable(InventoryOf(root.children).configurations)
  }

  /** The records importVcxproj appends for the project file `projectFile` whose root element is `root`. */
  function ProjectRecords(projectFile: string, root: Element, paths: PathHelpers, scan: string -> bool): seq<FileSettings>
    requires ProjectImportable(root)
  {
    var inv := InventoryOf(root.children);
    FileRecords(projectFile, inv.compileList, inv.configurations, inv.groups, paths, scan)
  }

  /** Every compiled file gets one record per (configuration, group) pair whose condition holds. */
  lemma ProjectRecordsCount(projectFile: string, root: Element, paths: PathHelpers, scan: string -> bool)
    requires ProjectImportable(root)
    ensures var inv := InventoryOf(root.children);
      |ProjectRecords(projectFile, root, paths, scan)| == |inv.compileList| * MatchCount(inv.configurations, inv.groups, scan)
  {
    var inv := InventoryOf(root.children);
    FileRecordsCount(projectFile, inv.compileList, inv.configurations, inv.groups, paths, scan);
  }

  /** The records an import of a loaded document appends: none when loading failed or there is no root. */
  function DocumentRecords(projectFile: string, doc: LoadResult, paths: PathHelpers, scan: string -> bool): seq<FileSettings>
    requires doc.Loaded? && doc.root.Some? ==> ProjectImportable(doc.root.value)
  {
    if doc.LoadError? || doc.root.None? then [] else ProjectRecords(projectFile, doc.root.value, paths, scan)
  }

  /**
   * The platform-file document is one Settings::platformFile accepts: it
   * loaded, and its root element is named "platform".
   */
  predicate IsPlatformDocument(doc: LoadResult)
  {
    doc.Loaded? && doc.root.Some? && doc.root.value.name == "platform"
  }

  /**
   * The record importVcxproj builds for one file under one group: the
   * simplified path of the file beside the project, the group's defines,
   * its include paths item by item, and the platform the configuration names.
   */
  method BuildRecord(projectFile: string, file: string, p: ProjectConfiguration, g: ItemDefinitionGroup,
                     paths: PathHelpers) returns (fs: FileSettings)
    ensures fs == MakeRecord(projectFile, file, p, g, paths)
    ensures fs.platformType.Some? <==> p.platform in {"Win32", "x64"}
  {
    var includePaths := ToStringList(g.additionalIncludePaths);
    var platform: Option<PlatformType> := None;
    if p.platform == "Win32" {
      platform := Some(Win32W);
    } else if p.platform == "x64" {
      platform := Some(Win64);
    }
    fs := FileSettings(
      paths.simplifyPath(paths.getPathFromFilename(projectFile) + file),
      g.preprocessorDefinitions, {}, includePaths, platform);
  }

  class Settings {
    /** Whether the build defines CHECK_INTERNAL, which adds "internal" to the vocabulary. */
    const checkInternal: bool
    var enabled: set<string>

    var platformType: PlatformType
    /** The `sizeof_*` fields, byte widths of the built-in types. */
    var sizes: Sizes
    var defaultSign: char
    var charBit: int
    var shortBit: int
    var intBit: int
    var longBit: int
    var longLongBit: int

    var fileSettings: seq<FileSettings>

    /** The fields a profile or a platform file sets. */
    function CurrentAbi(): Abi
      reads this
    {
      Abi(sizes, defaultSign, charBit)
    }

    function CurrentBitWidths(): BitWidths
      reads this
    {
      BitWidths(shortBit, intBit, longBit, longLongBit)
    }

    /** The whole platform description: its type, its fields and its derived bit widths. */
    function Target(): (PlatformType, Abi, BitWidths)
      reads this
    {
      (platformType, CurrentAbi(), CurrentBitWidths())
    }

    /** The bit widths agree with the byte widths, and only known categories are enabled. */
    predicate Valid()
      reads this
    {
      && CurrentBitWidths() == Widths(CurrentAbi())
      && enabled <= Vocabulary(checkInternal)
    }

    /**
     * A fresh object describes the platform the program was built for:
     * `hostPlatform` is Win64, Win32A or Native depending on the compiler's
     * target.
     */
    constructor(checkInternal: bool, hostPlatform: PlatformType, host: Host)
      requires hostPlatform == Win64 || hostPlatform == Win32A || hostPlatform == Native
      ensures Valid()
      ensures this.checkInternal == checkInternal
      ensures enabled == {} && fileSettings == []
      ensures platformType == hostPlatform && CurrentAbi() == Profile(hostPlatform, host)
    {
      this.checkInternal := checkInternal;
      enabled := {};
      fileSettings := [];
      new;
      var _ := Platform(hostPlatform, host);
    }

    /**
     * Enables the categories named in the comma separated list `str`, stopping
     * at the first element that is empty or unknown and returning its message;
     * "" on success.
     */
    method AddEnabled(str: string) returns (message: string)
      requires Valid()
      modifies this
      ensures Valid()
      ensures Outcome(message, enabled) == ParseEnable(old(enabled), str, checkInternal)
      ensures ',' !in str ==> Outcome(message, enabled) == ApplyOne(old(enabled), str, checkInternal)
      ensures fileSettings == old(fileSettings) && Target() == old(Target())
      decreases |str|, 2
    {
      if IndexOfFrom(str, ',', 0) < |str| {
        message := AddEnabledList(str);
        assert ',' in str;
        return;
      }
      assert ',' !in str;
      ParseEnableSingle(enabled, str, checkInternal);
      message := EnableName(str);
    }

    /** The part of addEnabled that walks a list containing a comma, element by element. */
    method AddEnabledList(str: string) returns (message: string)
      requires Valid()
      requires IndexOfFrom(str, ',', 0) < |str|
      modifies this
      ensures Valid()
      ensures Outcome(message, enabled) == ParseEnable(old(enabled), str, checkInternal)
      ensures fileSettings == old(fileSettings) && Target() == old(Target())
      decreases |str|, 1
    {
      ghost var done: seq<string> := [];
      var prevPos := 0;
      var pos := 0;
      assert str[prevPos..] == str;
      while true
        invariant pos == prevPos <= |str|
        invariant prevPos == 0 ==> IndexOfFrom(str, ',', 0) < |str|
        invariant Valid()
        invariant Split(str, ',') == done + Split(str[prevPos..], ',')
        invariant AllAccepted(done, checkInternal) && enabled == old(enabled) + Effects(done, checkInternal)
        invariant fileSettings == old(fileSettings) && Target() == old(Target())
        decreases |str| - prevPos
      {
        pos := IndexOfFrom(str, ',', pos);
        if pos == |str| {
          break;
        }
        var errmsg;
        errmsg, done := AddEnabledElement(str, prevPos, pos, old(enabled), done);
        if errmsg != "" {
          return errmsg;
        }
        ghost var rest := str[pos + 1..];
        pos := pos + 1;
        assert str[pos..] == rest;
        prevPos := pos;
      }
      message := AddEnabledLast(str, prevPos, old(enabled), done);
    }

    /** One element of addEnabled's list walk, the one ending at the comma `pos`; an empty one is an error. */
    method AddEnabledElement(str: string, prevPos: nat, pos: nat, ghost start: set<string>, ghost done: seq<string>)
      returns (errmsg: string, ghost doneAfter: seq<string>)
      requires Valid()
      requires prevPos <= pos < |str| && pos == IndexOfFrom(str, ',', prevPos)
      requires Split(str, ',') == done + Split(str[prevPos..], ',')
      requires AllAccepted(done, checkInternal) && enabled == start + Effects(done, checkInternal)
      modifies this
      ensures Valid()
      ensures errmsg != "" ==> Outcome(errmsg, enabled) == ParseEnable(start, str, checkInternal)
      ensures errmsg == "" ==>
        && AllAccepted(doneAfter, checkInternal) && enabled == start + Effects(doneAfter, checkInternal)
        && Split(str, ',') == doneAfter + Split(str[pos + 1..], ',')
      ensures fileSettings == old(fileSettings) && Target() == old(Target())
      decreases |str|, 0
    {
      if pos == prevPos {
        doneAfter := ReadElement(start, str, prevPos, pos, done, checkInternal, ApplyOne(enabled, str[prevPos..pos], checkInternal));
        return EmptyMessage, doneAfter;
      }
      assert ',' !in str[prevPos..pos];
      errmsg := AddEnabled(str[prevPos..pos]);
      doneAfter := ReadElement(start, str, prevPos, pos, done, checkInternal, Outcome(errmsg, enabled));
    }

    /** The end of addEnabled's list walk: the element after the last comma. */
    method AddEnabledLast(str: string, prevPos: nat, ghost start: set<string>, ghost done: seq<string>) returns (message: string)
      requires Valid()
      requires 0 < prevPos <= |str| && IndexOfFrom(str, ',', prevPos) == |str|
      requires Split(str, ',') == done + Split(str[prevPos..], ',')
      requires AllAccepted(done, checkInternal) && enabled == start + Effects(done, checkInternal)
      modifies this
      ensures Valid()
      ensures Outcome(message, enabled) == ParseEnable(start, str, checkInternal)
      ensures fileSettings == old(fileSettings) && Target() == old(Target())
      decreases |str|, 0
    {
      if prevPos >= |str| {
        ReadLastElement(start, str, prevPos, done, checkInternal, ApplyOne(enabled, str[prevPos..], checkInternal));
        return EmptyMessage;
      }
      assert ',' !in str[prevPos..];
      message := AddEnabled(str[prevPos..]);
      ReadLastElement(start, str, prevPos, done, checkInternal, Outcome(message, enabled));
    }

    /** The part of addEnabled that handles a single name: "all", a category, or an error. */
    method EnableName(name: string) returns (message: string)
      requires Valid()
      modifies this
      ensures Valid()
      ensures Outcome(message, enabled) == ApplyOne(old(enabled), name, checkInternal)
      ensures fileSettings == old(fileSettings) && Target() == old(Target())
    {
      if name == "all" {
        var ids := Vocabulary(checkInternal);
        while ids != {}
          invariant ids <= Vocabulary(checkInternal)
          invariant enabled == old(enabled) + (Vocabulary(checkInternal) - ids - {"internal"})
          invariant fileSettings == old(fileSettings) && Target() == old(Target())
          decreases ids
        {
          var id :| id in ids;
          if id != "internal" {
            enabled := enabled + {id};
          }
          ids := ids - {id};
        }
      } else if name in Vocabulary(checkInternal) {
        enabled := enabled + {name};
        if name == "information" {
          enabled := enabled + {"missingInclude"};
        }
      } else {
        if name == "" {
          return EmptyMessage;
        } else {
          return UnknownMessage(name);
        }
      }
      return "";
    }

    /** Selects one of the built-in platform profiles; every type has one. */
    method Platform(t: PlatformType, host: Host) returns (ok: bool)
      requires enabled <= Vocabulary(checkInternal)
      modifies this
      ensures Valid()
      ensures ok
      ensures platformType == t && CurrentAbi() == Profile(t, host)
      ensures CurrentBitWidths() == Widths(CurrentAbi())
      ensures enabled == old(enabled) && fileSettings == old(fileSettings)
    {
      platformType := t;
      match t {
        case Unspecified =>
          sizes := host.sizes;
          defaultSign := '\0';
          charBit := 8;
        case Native =>
          sizes := host.sizes;
          defaultSign := if host.charIsSigned then 's' else 'u';
          charBit := 8;
        case Win32A | Win32W =>
          sizes := Sizes(1, 2, 4, 4, 8, 4, 8, 8, 2, 4, 4);
          defaultSign := '\0';
          charBit := 8;
        case Win64 =>
          sizes := Sizes(1, 2, 4, 4, 8, 4, 8, 8, 2, 8, 8);
          defaultSign := '\0';
          charBit := 8;
        case Unix32 =>
          sizes := Sizes(1, 2, 4, 4, 8, 4, 8, 12, 4, 4, 4);
          defaultSign := '\0';
          charBit := 8;
        case Unix64 =>
          sizes := Sizes(1, 2, 4, 8, 8, 4, 8, 16, 4, 8, 8);
          defaultSign := '\0';
          charBit := 8;
      }
      UpdateBitWidths();
      return true;
    }

    /** Recomputes the bit widths of short, int, long and long long from the byte widths. */
    method UpdateBitWidths()
      modifies this
      ensures enabled <= Vocabulary(checkInternal) ==> Valid()
      ensures CurrentBitWidths() == Widths(CurrentAbi())
      ensures platformType == old(platformType) && CurrentAbi() == old(CurrentAbi())
      ensures enabled == old(enabled) && fileSettings == old(fileSettings)
    {
      shortBit := charBit * sizes.sizeofShort;
      intBit := charBit * sizes.sizeofInt;
      longBit := charBit * sizes.sizeofLong;
      longLongBit := charBit * sizes.sizeofLongLong;
    }

    /**
     * Reads a platform file: fails, changing nothing, when the document did
     * not load or its root is not a `platform` element; otherwise patches the
     * fields its children name, in document order, and recomputes the bit
     * widths. The `sizeof` loop tests the name of the `sizeof` element itself,
     * so the byte widths never change.
     */
    method PlatformFile(doc: LoadResult, atoi: string -> int) returns (ok: bool)
      requires Valid()
      requires IsPlatformDocument(doc) ==> PlatformTextsPresent(doc.root.value)
      modifies this
      ensures Valid()
      ensures ok <==> IsPlatformDocument(doc)
      ensures !ok ==> Target() == old(Target())
      ensures ok ==> CurrentAbi() == PatchNodesAsWritten(old(CurrentAbi()), doc.root.value.children, atoi)
      ensures sizes == old(sizes)
      ensures platformType == old(platformType)
      ensures enabled == old(enabled) && fileSettings == old(fileSettings)
    {
      if doc.LoadError? {
        return false;
      }
      if doc.root.None? || doc.root.value.name != "platform" {
        return false;
      }
      var root := doc.root.value;
      var n := 0;
      while n < |root.children|
        invariant n <= |root.children|
        invariant CurrentAbi() == PatchNodesAsWritten(old(CurrentAbi()), root.children[..n], atoi)
        invariant platformType == old(platformType)
        invariant enabled == old(enabled) && fileSettings == old(fileSettings)
      {
        var node := root.children[n];
        assert root.children[..n + 1][..n] == root.children[..n];
        if node.name == "default-sign" {
          defaultSign := FirstChar(node.text.value);
        } else if node.name == "char_bit" {
          charBit := atoi(node.text.value);
        } else if node.name == "sizeof" {
          ReadSizes(node, atoi);
        }
        n := n + 1;
      }
      assert root.children[..n] == root.children;
      PlatformFileAsWrittenKeepsSizes(old(CurrentAbi()), root.children, atoi);
      UpdateBitWidths();
      return true;
    }

    /**
     * The inner loop of platformFile over the children of a `sizeof` element
     * `node`. Each turn tests and reads `node`, not the child, so a `sizeof`
     * element leaves the byte widths as they were.
     */
    method ReadSizes(node: Element, atoi: string -> int)
      modifies this
      ensures sizes == PatchSizesAsWritten(old(sizes), node, node.children, atoi)
      ensures node.name == "sizeof" ==> sizes == old(sizes)
      ensures defaultSign == old(defaultSign) && charBit == old(charBit) && platformType == old(platformType)
      ensures enabled == old(enabled) && fileSettings == old(fileSettings)
    {
      var cs := node.children;
      var j := 0;
      while j < |cs|
        invariant j <= |cs|
        invariant sizes == PatchSizesAsWritten(old(sizes), node, cs[..j], atoi)
        invariant defaultSign == old(defaultSign) && charBit == old(charBit) && platformType == old(platformType)
        invariant enabled == old(enabled) && fileSettings == old(fileSettings)
      {
        assert cs[..j + 1][..j] == cs[..j];
        sizes := SetSize(sizes, node.name, atoi(TextOf(node)));
        j := j + 1;
      }
      assert cs[..j] == cs;
      if node.name == "sizeof" {
        SizeofLoopAsWrittenInert(old(sizes), node, cs, atoi);
      }
    }

    /**
     * Reads a compilation database given as its token list: every object with
     * a non-empty "file" and "command" appends one record whose options are
     * scanned from the command.
     */
    method ImportCompileCommands(tokens: seq<string>, paths: PathHelpers)
      requires Valid()
      modifies this
      ensures Valid()
      ensures fileSettings == old(fileSettings) + Records(tokens, paths)
      ensures enabled == old(enabled) && Target() == old(Target())
    {
      var values: map<string, string> := map[];
      ghost var emitted: seq<FileSettings> := [];
      var i := 0;
      while i < |tokens|
        invariant i <= |tokens|
        invariant WalkTokens(tokens, i, paths) == Walk(values, emitted)
        invariant fileSettings == old(fileSettings) + emitted
        invariant enabled == old(enabled) && Target() == old(Target())
      {
        var next, emit := StepToken(values, tokens, i, paths);
        StepAppends(Walk(values, emitted), tokens, i, paths);
        values := next;
        fileSettings := fileSettings + emit;
        emitted := emitted + emit;
        i := i + 1;
      }
    }

    /**
     * Reads a Visual Studio project given as its loaded document: for every
     * compiled file, every configuration and every item definition group
     * whose condition holds for it, appends one record.
     */
    method ImportVcxproj(filename: string, doc: LoadResult, paths: PathHelpers, scan: string -> bool)
      requires Valid()
      requires doc.Loaded? && doc.root.Some? ==> ProjectImportable(doc.root.value)
      modifies this
      ensures Valid()
      ensures fileSettings == old(fileSettings) + DocumentRecords(filename, doc, paths, scan)
      ensures enabled == old(enabled) && Target() == old(Target())
    {
      if doc.LoadError? {
        return;
      }
      if doc.root.None? {
        return;
      }
      var inv := ReadProject(doc.root.value);
      AddFileRecords(filename, inv.compileList, inv.configurations, inv.groups, paths, scan);
    }

    /** The outer loop of importVcxproj: every compiled file in order. */
    method AddFileRecords(filename: string, files: seq<string>, configs: seq<ProjectConfiguration>,
                          groups: seq<ItemDefinitionGroup>, paths: PathHelpers, scan: string -> bool)
      requires AllSubstitutable(configs)
      modifies this
      ensures fileSettings == old(fileSettings) + FileRecords(filename, files, configs, groups, paths, scan)
      ensures enabled == old(enabled) && Target() == old(Target())
    {
      var c := 0;
      while c < |files|
        invariant c <= |files|
        invariant fileSettings == old(fileSettings) + FileRecords(filename, files[..c], configs, groups, paths, scan)
        invariant enabled == old(enabled) && Target() == old(Target())
      {
        AddConfigRecords(filename, files[c], configs, groups, paths, scan);
        assert files[..c + 1][..c] == files[..c];
        c := c + 1;
      }
      assert files[..c] == files;
    }

    /** The middle loop of importVcxproj: one file, every configuration in order. */
    method AddConfigRecords(filename: string, file: string, configs: seq<ProjectConfiguration>,
                            groups: seq<ItemDefinitionGroup>, paths: PathHelpers, scan: string -> bool)
      requires AllSubstitutable(configs)
      modifies this
      ensures fileSettings == old(fileSettings) + ConfigRecords(filename, file, configs, groups, paths, scan)
      ensures enabled == old(enabled) && Target() == old(Target())
    {
      var p := 0;
      while p < |configs|
        invariant p <= |configs|
        invariant fileSettings == old(fileSettings) + ConfigRecords(filename, file, configs[..p], groups, paths, scan)
        invariant enabled == old(enabled) && Target() == old(Target())
      {
        AddGroupRecords(filename, file, configs[p], groups, paths, scan);
        assert configs[..p + 1][..p] == configs[..p];
        p := p + 1;
      }
      assert configs[..p] == configs;
    }

    /** The innermost loop of importVcxproj: one file in one configuration, against every group. */
    method AddGroupRecords(filename: string, file: string, p: ProjectConfiguration, groups: seq<ItemDefinitionGroup>,
                           paths: PathHelpers, scan: string -> bool)
      requires Substitutable(p)
      modifies this
      ensures fileSettings == old(fileSettings) + GroupRecords(filename, file, p, groups, paths, scan)
      ensures enabled == old(enabled) && Target() == old(Target())
    {
      var i := 0;
      while i < |groups|
        invariant i <= |groups|
        invariant fileSettings == old(fileSettings) + GroupRecords(filename, file, p, groups[..i], paths, scan)
        invariant enabled == old(enabled) && Target() == old(Target())
      {
        assert groups[..i + 1][..i] == groups[..i];
        var holds := ConditionIsTrue(groups[i], p, scan);
        if holds {
          var fs := BuildRecord(filename, file, p, groups[i], paths);
          fileSettings := fileSettings + [fs];
        }
        i := i + 1;
      }
      assert groups[..i] == groups;
    }

    /**
     * Imports a project file: nothing happens when it cannot be opened;
     * otherwise it goes to the importer its name selects, if any. The file's
     * contents are given both as the token list the compilation database
     * reader sees and as the document the project reader loads.
     */
    method ImportProject(filename: string, isOpen: bool, tokens: seq<string>, doc: LoadResult,
                         paths: PathHelpers, scan: string -> bool)
      requires Valid()
      requires doc.Loaded? && doc.root.Some? ==> ProjectImportable(doc.root.value)
      modifies this
      ensures Valid()
      ensures fileSettings == old(fileSettings) +
        if !isOpen then []
        else match SelectImporter(filename)
          case None => []
          case Some(CompileCommandsImporter) => Records(tokens, paths)
          case Some(VcxprojImporter) => DocumentRecords(filename, doc, paths, scan)
      ensures enabled == old(enabled) && Target() == old(Target())
    {
      if !isOpen {
        return;
      }
      if filename == "compile_commands.json" {
        ImportCompileCommands(tokens, paths);
      } else if Contains(filename, ".vcxproj") {
        ImportVcxproj(filename, doc, paths, scan);
      }
    }
  }
}
