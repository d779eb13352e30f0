/**
 * The resource loader: a localized resource object is bound to a directory,
 * a file-name prefix and a language, loads the sections of one INI file, and
 * resolves error codes and message keys into formatted strings. Every failure
 * is reported as a `LocalizationError` whose code names the failure site:
 * 0 missing directory, 1 missing file, 2 and 3 missing error section or
 * error code, 4 and 5 missing message section or message key.
 */
module Localization {
  import opened TextReplace
  import opened Decimal
  import opened Errors
  import opened Formatting

  /** What a call returns when it may raise a `LocalizationError`. */
  datatype Result<T> = Success(value: T) | Failure(error: LocalizationError)

  /** An error code as the lookup accepts it: an integer or a string. */
  datatype Code = IntCode(n: int) | StrCode(s: string)

  /** The key a code is looked up under: Python's `str(code)`. */
  function CodeKey(code: Code): string
  {
    match code
    case IntCode(n) => IntToString(n)
    case StrCode(s) => s
  }

  /** One section of an INI file: option name to value. */
  type Section = map<string, string>

  /** The sections of an INI file, by name. */
  type Sections = map<string, Section>

  const ErrorCodesSection: string := "error_codes"
  const MessagesSection: string := "messages"

  /**
   * The part of the operating system the loader consults: which paths exist,
   * what the INI parser makes of each file it can open, and the absolute form
   * of a path.
   */
  datatype FileSystem = FileSystem(existing: set<string>, parsed: map<string, Sections>, absPath: string -> string)
  {
    /** The sections read from `path`; a file the parser cannot open contributes none. */
    function Read(path: string): Sections
    {
      if path in parsed then parsed[path] else map[]
    }
  }

  // ---------------------------------------------------------------------
  // Where the resource file is.

  /** The file name for a prefix and a language: `<prefix>_<language>.ini`. */
  function ResourceFileName(prefix: string, language: string := "english"): string
  {
    prefix + "_" + language + ".ini"
  }

  /** The prefix, an underscore, the language and the `.ini` suffix can be read back from the name. */
  lemma ResourceFileNameParts(prefix: string, language: string)
    ensures var n := ResourceFileName(prefix, language);
      && |n| == |prefix| + |language| + 5
      && n[..|prefix|] == prefix
      && n[|prefix|] == '_'
      && n[|prefix| + 1..|n| - 4] == language
      && n[|n| - 4..] == ".ini"
  {
    var n := ResourceFileName(prefix, language);
    assert n == prefix + ("_" + language + ".ini");
    assert n[|prefix|..] == "_" + language + ".ini";
  }

  /** Without a language the file is the English one. */
  lemma ResourceFileNameDefault(prefix: string)
    ensures ResourceFileName(prefix) == ResourceFileName(prefix, "english")
    ensures ResourceFileName(prefix)[|prefix|..] == "_english.ini"
  {
    var n := ResourceFileName(prefix);
    assert n == prefix + ("_" + "english" + ".ini");
  }

  /** Two prefixes of the same length give the same file name only with the same language. */
  lemma ResourceFileNameInjective(p1: string, l1: string, p2: string, l2: string)
    requires |p1| == |p2|
    ensures ResourceFileName(p1, l1) == ResourceFileName(p2, l2) ==> p1 == p2 && l1 == l2
  {
    ResourceFileNameParts(p1, l1);
    ResourceFileNameParts(p2, l2);
  }

  /** `os.path.join(a, b)` with the POSIX separator. */
  function JoinPath(a: string, b: string): (r: string)
    ensures |r| >= |b| && r[|r| - |b|..] == b
    ensures (|b| == 0 || b[0] != '/') ==> |r| >= |a| + |b| && r[..|a|] == a
    ensures (|b| == 0 || b[0] != '/') && |a| > 0 ==> |r| > |b| && r[|r| - |b| - 1] == '/'
    ensures |b| > 0 && b[0] == '/' ==> r == b
    ensures (|b| == 0 || b[0] != '/') ==> |r| <= |a| + 1 + |b|
    ensures (|b| == 0 || b[0] != '/') && |a| > 0 && a[|a| - 1] == '/' ==> r == a + b
  {
    if |b| > 0 && b[0] == '/' then b
    else if |a| == 0 || a[|a| - 1] == '/' then a + b
    else a + "/" + b
  }

  /** The last component of a path: what follows its last '/'. */
  function Basename(p: string): string
    decreases |p|
  {
    if |p| == 0 || p[|p| - 1] == '/' then [] else Basename(p[..|p| - 1]) + [p[|p| - 1]]
  }

  lemma {:induction false} BasenameAfterSlash(a: string, b: string)
    requires (|a| == 0 || a[|a| - 1] == '/') && '/' !in b
    ensures Basename(a + b) == b
    decreases |b|
  {
    if |b| == 0 {
      assert a + b == a;
    } else {
      var b' := b[..|b| - 1];
      assert (a + b)[..|a + b| - 1] == a + b';
      BasenameAfterSlash(a, b');
      assert b' + [b[|b| - 1]] == b;
    }
  }

  /** A file name without '/' is the last component of the path it is joined into. */
  lemma JoinPathBasename(dir: string, name: string)
    requires |name| > 0 && '/' !in name
    ensures Basename(JoinPath(dir, name)) == name
  {
    assert name[0] in name;
    if |dir| == 0 || dir[|dir| - 1] == '/' {
      BasenameAfterSlash(dir, name);
    } else {
      BasenameAfterSlash(dir + "/", name);
      assert dir + "/" + name == (dir + "/") + name;
    }
  }

  // ---------------------------------------------------------------------
  // Reading a file into the parser.

  /**
   * What reading `from` into a parser that already holds `into` leaves: every
   * section of either, and in a section present in both the options of both,
   * those read later winning.
   */
  function MergeSections(into: Sections, from: Sections): (r: Sections)
    ensures r.Keys == into.Keys + from.Keys
    ensures forall s :: s in from ==> from[s].Keys <= r[s].Keys
    ensures forall s, k :: s in from && k in from[s] ==> r[s][k] == from[s][k]
    ensures forall s, k :: s in into && k in into[s] && (s !in from || k !in from[s]) ==> k in r[s] && r[s][k] == into[s][k]
    ensures forall s, k :: s in r && k in r[s] ==> (s in into && k in into[s]) || (s in from && k in from[s])
  {
    map s | s in into.Keys + from.Keys ::
      (if s in into then into[s] else map[]) + (if s in from then from[s] else map[])
  }

  /** Reading into an empty parser gives exactly the file's sections. */
  lemma MergeIntoEmpty(from: Sections)
    ensures MergeSections(map[], from) == from
  {
    var r := MergeSections(map[], from);
    forall s | s in from
      ensures r[s] == from[s]
    {
      assert r[s].Keys == from[s].Keys;
    }
  }

  function CorruptFile(path: string): string
  {
    "Localization file " + path + " is corrupt: "
  }

  /** A loader bound to one resource file, holding the sections read from it. */
  class LocalizedResource {
    const resourcesD: string
    const resourcesN: string
    const resourcesP: string
    var sections: Sections

    /** The file name and path are derived from the directory, prefix and language; nothing is read yet. */
    constructor (resourcesD: string, prefix: string, language: string := "english")
      ensures this.resourcesD == resourcesD
      ensures resourcesN == ResourceFileName(prefix, language)
      ensures resourcesP == JoinPath(resourcesD, resourcesN)
      ensures sections == map[]
    {
      this.resourcesD := resourcesD;
      resourcesN := ResourceFileName(prefix, language);
      resourcesP := JoinPath(resourcesD, ResourceFileName(prefix, language));
      sections := map[];
    }

    /**
     * Fails with code 1, naming the absolute path, when the resource file does
     * not exist; otherwise reads the file into the sections.
     */
    method ReadResources(fs: FileSystem) returns (r: Result<()>)
      modifies this
      ensures resourcesP !in fs.existing ==>
        r == Failure(LocalizationError("Cannot locate resource file: " + fs.absPath(resourcesP), 1)) && sections == old(sections)
      ensures resourcesP in fs.existing ==> r == Success(()) && sections == MergeSections(old(sections), fs.Read(resourcesP))
    {
      if resourcesP !in fs.existing {
        var msg := "Cannot locate resource file: " + fs.absPath(resourcesP);
        var code := 1;
        return Failure(LocalizationError(msg, code));
      }
      sections := MergeSections(sections, fs.Read(resourcesP));
      return Success(());
    }

    /**
     * The error message for `code`: code 2 when there is no error section
     * (checked first), code 3 when the section lacks the code, and otherwise
     * the stored text, formatted, so holding no backslash-n and no colour tag.
     */
    function ErrorMsg(code: Code): (r: Result<string>)
      reads this
      ensures r.Success? <==> ErrorCodesSection in sections && CodeKey(code) in sections[ErrorCodesSection]
      ensures r.Failure? ==> r.error.code == (if ErrorCodesSection in sections then 3 else 2)
      ensures ErrorCodesSection !in sections ==>
        r.Failure? && r.error.message == CorruptFile(resourcesP) + "It is missing the error_codes section."
      ensures ErrorCodesSection in sections && r.Failure? ==>
        r.error.message == CorruptFile(resourcesP) + "It is missing the error_code: " + CodeKey(code) + "."
      ensures r.Success? ==> r.value == Format(sections[ErrorCodesSection][CodeKey(code)]) && NoMarkup(r.value)
    {
      if ErrorCodesSection !in sections then
        Failure(LocalizationError(CorruptFile(resourcesP) + "It is missing the error_codes section.", 2))
      else if CodeKey(code) !in sections[ErrorCodesSection] then
        Failure(LocalizationError(CorruptFile(resourcesP) + "It is missing the error_code: " + CodeKey(code) + ".", 3))
      else
        var msg := sections[ErrorCodesSection][CodeKey(code)];
        FormatLeavesNoMarkup(msg);
        Success(Format(msg))
    }

    /**
     * The message for `key`: code 4 when there is no message section (checked
     * first), code 5 when the section lacks the key, and otherwise the stored
     * text, formatted.
     */
    function Msg(key: string): (r: Result<string>)
      reads this
      ensures r.Success? <==> MessagesSection in sections && key in sections[MessagesSection]
      ensures r.Failure? ==> r.error.code == (if MessagesSection in sections then 5 else 4)
      ensures MessagesSection !in sections ==>
        r.Failure? && r.error.message == CorruptFile(resourcesP) + "It is missing the messages section."
      ensures MessagesSection in sections && r.Failure? ==>
        r.error.message == CorruptFile(resourcesP) + "It is missing the message: " + key + "."
      ensures r.Success? ==> r.value == Format(sections[MessagesSection][key]) && NoMarkup(r.value)
    {
      if MessagesSection !in sections then
        Failure(LocalizationError(CorruptFile(resourcesP) + "It is missing the messages section.", 4))
      else if key !in sections[MessagesSection] then
        Failure(LocalizationError(CorruptFile(resourcesP) + "It is missing the message: " + key + ".", 5))
      else
        var msg := sections[MessagesSection][key];
        FormatLeavesNoMarkup(msg);
        Success(Format(msg))
    }
  }

  /**
   * Construction: code 0 when the directory does not exist; otherwise the
   * loader for `<dir>/<prefix>_<language>.ini`, or code 1 when that file does
   * not exist.
   */
  method Open(fs: FileSystem, resourcesD: string, prefix: string, language: string := "english")
    returns (r: Result<LocalizedResource>)
    ensures resourcesD !in fs.existing ==>
      r == Failure(LocalizationError("Resources directory " + resourcesD + " does not exist."))
    ensures resourcesD in fs.existing && JoinPath(resourcesD, ResourceFileName(prefix, language)) !in fs.existing ==>
      r == Failure(LocalizationError("Cannot locate resource file: "
                                     + fs.absPath(JoinPath(resourcesD, ResourceFileName(prefix, language))), 1))
    ensures resourcesD in fs.existing && JoinPath(resourcesD, ResourceFileName(prefix, language)) in fs.existing ==>
      && r.Success? && fresh(r.value)
      && r.value.resourcesD == resourcesD
      && r.value.resourcesN == ResourceFileName(prefix, language)
      && r.value.resourcesP == JoinPath(resourcesD, ResourceFileName(prefix, language))
      && r.value.sections == fs.Read(r.value.resourcesP)
  {
    if resourcesD !in fs.existing {
      return Failure(LocalizationError("Resources directory " + resourcesD + " does not exist."));
    }
    var res := new LocalizedResource(resourcesD, prefix, language);
    var read := res.ReadResources(fs);
    if read.Failure? {
      return Failure(read.error);
    }
    MergeIntoEmpty(fs.Read(res.resourcesP));
    return Success(res);
  }

  // ---------------------------------------------------------------------
  // Properties of the lookups.

  /** An integer code and its decimal string find the same entry, or fail the same way. */
  lemma ErrorMsgIntOrString(res: LocalizedResource, n: int)
    ensures res.ErrorMsg(IntCode(n)) == res.ErrorMsg(StrCode(IntToString(n)))
  {
  }

  /** Different integer codes are looked up under different keys. */
  lemma CodeKeysDistinct(m: int, n: int)
    requires m != n
    ensures CodeKey(IntCode(m)) != CodeKey(IntCode(n))
  {
    IntToStringInjective(m, n);
  }

  /** The error lookup never reports a message-section failure, and the message lookup never an error-section one. */
  lemma LookupCodesDisjoint(res: LocalizedResource, code: Code, key: string)
    ensures res.ErrorMsg(code).Failure? ==> res.ErrorMsg(code).error.code in {2, 3}
    ensures res.Msg(key).Failure? ==> res.Msg(key).error.code in {4, 5}
  {
  }

  /** The numeral of 101 is "101". */
  lemma Key101()
    ensures IntToString(101) == "101"
  {
    assert NatToString(1) == "1";
    assert NatToString(10) == "10";
  }

  /** A stored template with a red span, looked up by the integer code 101. */
  lemma ErrorMsgExample(res: LocalizedResource)
    requires ErrorCodesSection in res.sections
    requires res.sections[ErrorCodesSection] == map["101" := "Error " + ColorTag("RED") + "number {num}" + ColorTag("NONE")]
    ensures res.ErrorMsg(IntCode(101)) == Success("Error " + RED + "number {num}" + ENDC)
  {
    Key101();
    FormatRedSpan("Error ", "number {num}");
  }
}
