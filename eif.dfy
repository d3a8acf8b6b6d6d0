/**
 * The lines of `Upgrade(10).eif` (git2patch.py:1077-1226, 1251-1275): each
 * exported `.eif` file of a patch gets one numbered line that says how the
 * structure it holds is to be loaded. The kind of structure is the number in
 * the `(NN).eif` suffix of the file name; tables (kind 10) are further told
 * apart by their name.
 */
module Upgrade10Eif {

  import opened Wrappers
  import opened Text

  // ---------------------------------------------------------------------------
  // The suffix `\((?:\d+|data)\)\.eif`, matched case-insensitively
  // ---------------------------------------------------------------------------

  /** `s` holds `word` (lower-case) at `i`, ignoring case. */
  predicate CaselessAt(s: string, i: nat, word: string)
  {
    i + |word| <= |s| && forall k :: 0 <= k < |word| ==> LowerChar(s[i + k]) == word[k]
  }

  /** The end of the run of digits that starts at `from`. */
  function DigitRunEnd(s: string, from: nat): (r: nat)
    requires from <= |s|
    decreases |s| - from
    ensures from <= r <= |s|
    ensures forall k :: from <= k < r ==> IsDigit(s[k])
    ensures r < |s| ==> !IsDigit(s[r])
  {
    if from < |s| && IsDigit(s[from]) then DigitRunEnd(s, from + 1) else from
  }

  /** Where the match of the suffix pattern that starts at `p` ends, if there is one. */
  function TagEnd(s: string, p: nat): (r: Option<nat>)
    ensures r.Some? ==> p + 7 <= r.value <= |s| && s[p] == '('
  {
    if p < |s| && s[p] == '(' then
      var digits := DigitRunEnd(s, p + 1);
      var close := if digits > p + 1 then digits else if CaselessAt(s, p + 1, "data") then p + 5 else p;
      if close > p && close < |s| && s[close] == ')' && CaselessAt(s, close + 1, ".eif") then Some(close + 5)
      else None
    else None
  }

  /** The leftmost match at or after `from`, as its start and end: `re.findall(...)[0]`. */
  function FirstTag(s: string, from: nat): (r: Option<(nat, nat)>)
    decreases |s| - from
    ensures r.Some? ==> from <= r.value.0 && TagEnd(s, r.value.0) == Some(r.value.1)
    ensures r.Some? ==> forall p :: from <= p < r.value.0 ==> TagEnd(s, p).None?
    ensures r.None? ==> forall p :: from <= p ==> TagEnd(s, p).None?
  {
    if from >= |s| then None
    else match TagEnd(s, from)
      case Some(e) => Some((from, e))
      case None => FirstTag(s, from + 1)
  }

  /**
   * The structure type between the parentheses. The pattern only admits
   * digits or a spelling of `data`, and for those `upper() == 'DATA'` holds
   * exactly when the lower-cased text is `data`.
   */
  predicate IsDataKind(kind: string)
  {
    Lower(kind) == "data"
  }

  // ---------------------------------------------------------------------------
  // The templates, from the third field on
  // ---------------------------------------------------------------------------

  const TableGroup := "|NULL|NULL|NULL|NULL|'Таблицы'>"
  const CheckData := " #TODO проверьте data таблицы"
  const DeltaNeeded := " #TODO обязательно дельту"

  /** The template of a table updated by delta on the key fields `keys`. */
  function Delta(keys: string, note: string): string
  {
    "|TRUE|TRUE|TRUE|TRUE|TRUE|TRUE|'" + keys + "'" + TableGroup + note
  }

  /** The tables whose data is replaced as a whole. */
  const Replaced: set<string> := {
    "noticeconfig", "paygrndparam", "mailreport", "wanavtrees", "balaccountsettings", "rkobranches",
    "mb2_versionsinfo", "mb_remotecfg", "nocopydocfields", "mbamsgxmlstructure", "mbamsgscheme",
    "mbamsgdocstatus", "mbadocumentssettings", "azkestimate"
  }

  predicate EndsWith(s: string, suffix: string)
  {
    |suffix| <= |s| && s[|s| - |suffix|..] == suffix
  }

  predicate StartsWith(s: string, prefix: string)
  {
    |prefix| <= |s| && s[..|prefix|] == prefix
  }

  /** `file_name.find(".") > 0`: the first dot is not the first character. */
  predicate IsBlobName(name: string)
  {
    match IndexFrom(name, '.', 0)
    case None => false
    case Some(i) => i > 0
  }

  /** `make_upgrade10_eif_string_for_tables` without its first three fields (git2patch.py:1077-1168). */
  function TableTail(name: string): string
  {
    TableTailOf(Lower(name), IsBlobName(name))
  }

  /** The table template for the lower-cased name `n`; `blob` is the dot test on the name. */
  function TableTailOf(n: string, blob: bool): string
  {
    if EndsWith(n, "default") || StartsWith(n, "root") || n == "customeroldrpl" || n == "memorydiasoftbuf" then
      "|TRUE|TRUE|FALSE|FALSE|FALSE|FALSE|NULL" + TableGroup
    else if blob then
      "|TRUE|FALSE|FALSE|FALSE|FALSE|FALSE|NULL" + TableGroup
    else if n == "orderstartflag" then Delta("Flag", CheckData)
    else if n == "docschemesettings" then Delta("ID", CheckData)
    else if n == "docprintsettings" then Delta("BranchID,CustId,SchemeId", CheckData)
    else if n == "docmultiprintsettings" then Delta("SchemeID,PrintFormName", CheckData)
    else if n == "filtersettings" then Delta("ScrollerName", CheckData)
    else if n == "linktxt" then Delta("NameFormat", CheckData)
    else if n == "absmanagertype" then Delta("ID", "")
    else if n == "dcmversions" then Delta("SchemeID,PatchNewVersion", "")
    else if n == "transschema" then Delta("ConnType,SchemaName", "")
    else if n == "remotenavmenus" then Delta("ID", CheckData)
    else if n == "remotenavtrees" then Delta("ID", CheckData + ", обновлять нужно только эталонное дерево")
    else if n == "offersettings" then Delta("Autokey", "")
    else if n == "armabcode" then Delta("Code", DeltaNeeded)
    else if n == "systemlogcodeset" then Delta("TransactionType", DeltaNeeded)
    else if n == "smssettings" then Delta("ID,SchemeId", DeltaNeeded)
    else if n == "postclnt" then "|TRUE|TRUE|FALSE|TRUE|TRUE|FALSE|NULL" + TableGroup
    else if n in Replaced then "|TRUE|TRUE|TRUE|TRUE|FALSE|FALSE|NULL" + TableGroup
    else if n == "remotepasscfg" then
      "|TRUE|TRUE|TRUE|TRUE|FALSE|FALSE|NULL" + TableGroup + " #TODO: скорее всего, нельзя оставлять эту таблицу в патче!!!"
    else if n == "controlsettings" || n == "controlconstants" || n == "controlgroups" then
      "|  ДОЛЖЕН БЫТЬ ВЫЗОВ uaControls или другой ua-шки  >"
    else if n == "remoterolesactions" || n == "remoterolesdocsettings" then
      "|  ДОЛЖЕН БЫТЬ один ВЫЗОВ ubRoles, в этой data нужно оставить дельту изменений remoterolesactions можно оставить полностью>"
    else if StartsWith(n, "bs3") || n == "freedoctype" then
      "|  ДОЛЖЕН БЫТЬ ВЫЗОВ ua-шки  >"
    else
      "|TRUE|TRUE|TRUE|TRUE|FALSE|FALSE|NULL" + TableGroup
      + " #TODO проверьте способ обновления таблицы, сейчас - заливается полностью. "
      + "Для дельты и обновления строк: |TRUE|TRUE|TRUE|TRUE|TRUE|TRUE|'название_полей'. "
      + "Только заменить структуру десятки: |TRUE|FALSE|FALSE|FALSE|TRUE|FALSE|NULL. "
      + "Заменить структуру и пересоздать: |TRUE|TRUE|FALSE|TRUE|TRUE|FALSE|NULL."
  }

  /**
   * The template of the structure type `kind` without its first three
   * fields; `None` for a type the script does not know (git2patch.py:1181-1221).
   */
  function KindTail(kind: string, name: string): Option<string>
  {
    var group := "|NULL|NULL|NULL|NULL|NULL|";
    if kind == "10" then Some(TableTail(name))
    else if kind == "12" then Some("|TRUE|TRUE|FALSE|TRUE|FALSE|TRUE" + group + "'Визуальные формы'>")
    else if kind == "14" then Some(ConfigurationTail)
    else if kind == "16" then Some("|TRUE|TRUE|FALSE|TRUE|FALSE|TRUE" + group + "'Автопроцедуры'>")
    else if kind == "18" then Some("|TRUE|TRUE|FALSE|TRUE|TRUE|TRUE" + group + "'Профили'>")
    else if kind == "19" then Some("|TRUE|FALSE|FALSE|TRUE|TRUE|TRUE" + group + "'Роли'>")
    else if kind == "20" then Some("|TRUE|TRUE|FALSE|TRUE|TRUE|TRUE" + group + "'Привилегии'>")
    else if kind == "21" then Some("|TRUE|TRUE|FALSE|TRUE|TRUE|TRUE" + group + "'Пользователи'>")
    else if kind == "30" then Some("|TRUE|TRUE|FALSE|TRUE|FALSE|TRUE" + group + "'Сценарии'>")
    else if kind == "65" then
      if Lower(name) == "subsys" || Lower(name) == "mbsc2" then
        Some("|TRUE|TRUE|FALSE|FALSE|TRUE|TRUE" + group + "'RTS SUBSYS(65)'> #TODO проверьте настройку")
      else Some("|TRUE|TRUE|FALSE|FALSE|TRUE|TRUE" + group + "'RTS(65)'>")
    else if kind == "66" then Some("|TRUE|TRUE|FALSE|FALSE|FALSE|TRUE" + group + "'RTS Errors/Tasks params'>")
    else if kind == "71" then Some("|TRUE|FALSE|FALSE|TRUE|FALSE|FALSE" + group + "'Генераторы'>")
    else if kind == "72" then Some("|TRUE|TRUE|FALSE|TRUE|FALSE|FALSE" + group + "'Структуры отображений'>")
    else if kind == "73" then Some("|TRUE|TRUE|FALSE|TRUE|FALSE|FALSE" + group + "'Хранимые процедуры'>")
    else if kind == "50" || kind == "81" then Some("|TRUE|TRUE|FALSE|FALSE|FALSE|FALSE" + group + "'Простые операции'>")
    else if kind == "51" || kind == "82" then Some("|TRUE|TRUE|FALSE|FALSE|FALSE|FALSE" + group + "'Табличные операции'>")
    else if kind == "52" || kind == "83" then Some("|TRUE|TRUE|FALSE|FALSE|FALSE|FALSE" + group + "'Документарные операции'>")
    else if kind == "84" then Some("|TRUE|FALSE|FALSE|TRUE|TRUE|TRUE" + group + "'Статусы'>")
    else None
  }

  /** The template of a configuration (type 14). */
  const ConfigurationTail := "|TRUE|TRUE|FALSE|FALSE|TRUE|TRUE|NULL|NULL|NULL|NULL|NULL|'Конфигурации'> #TODO проверьте настройку"

  /** A template with its first three fields `{counter}|{type}|'{name}'` filled in. */
  function Row(counter: nat, kind: string, name: string, tail: string): string
  {
    "<" + NatToString(counter) + "|" + kind + "|'" + name + "'" + tail
  }

  /**
   * `make_upgrade10_eif_string_by_file_name` (git2patch.py:1171-1226):
   * `None` when the name has no suffix, `''` for a data file, and otherwise
   * the line, which is blank for an unknown type.
   */
  function ByFileName(counter: nat, fileName: string): Option<string>
  {
    match FirstTag(fileName, 0)
    case None => None
    case Some((start, end)) =>
      var raw := fileName[start..end];
      var kind := raw[1..|raw| - 5];
      if IsDataKind(kind) then Some("")
      else
        var name := ReplaceAll(fileName, raw);
        var text := match KindTail(kind, name) case Some(tail) => Row(counter, kind, name, tail) case None => "";
        Some("  " + text + "\n")
  }

  // ---------------------------------------------------------------------------
  // Properties of one line
  // ---------------------------------------------------------------------------

  /** The line is written (`if line:`) exactly when the name has a suffix that is not `(data)`. */
  predicate Written(line: Option<string>)
  {
    line.Some? && line.value != ""
  }

  /** The counter-free condition for a file to get a line. */
  predicate HasLine(fileName: string)
  {
    match FirstTag(fileName, 0)
    case None => false
    case Some((start, end)) => !IsDataKind(fileName[start + 1..end - 5])
  }

  lemma WrittenIffHasLine(counter: nat, fileName: string)
    ensures Written(ByFileName(counter, fileName)) <==> HasLine(fileName)
  {
    match FirstTag(fileName, 0)
    case None =>
    case Some((start, end)) =>
      SliceOfSlice(fileName, start, end, 1, end - start - 5);
  }

  /** There is no result, only the error logged, exactly when no suffix matches anywhere in the name. */
  lemma NoSuffixNoLine(counter: nat, fileName: string)
    ensures ByFileName(counter, fileName).None? <==> forall p :: TagEnd(fileName, p).None?
  {
    match FirstTag(fileName, 0)
    case None =>
    case Some((start, end)) =>
  }

  lemma SliceOfSlice(s: string, a: nat, b: nat, c: nat, d: nat)
    requires a <= b <= |s| && c <= d <= b - a
    ensures s[a..b][c..d] == s[a + c..a + d]
  {
    assert forall k :: 0 <= k < d - c ==> s[a..b][c..d][k] == s[a + c + k];
  }

  /** A name without `(` has no match of the suffix pattern before its end. */
  lemma NoTagIn(stem: string, rest: string)
    requires forall k :: 0 <= k < |stem| ==> stem[k] != '('
    ensures forall p: nat :: p < |stem| ==> TagEnd(stem + rest, p).None?
  {
    forall p: nat | p < |stem|
      ensures TagEnd(stem + rest, p).None?
    {
      assert (stem + rest)[p] == stem[p];
    }
  }

  /**
   * The usual name `STEM(NN).eif`, with no `(` in `STEM`: the match is the
   * whole suffix, its type is `NN`, and removing it leaves `STEM`.
   */
  lemma PlainNameTag(stem: string, kind: string)
    requires forall k :: 0 <= k < |stem| ==> stem[k] != '('
    requires |kind| > 0 && forall k :: 0 <= k < |kind| ==> IsDigit(kind[k])
    ensures var f := stem + "(" + kind + ").eif";
      && FirstTag(f, 0) == Some((|stem|, |f|))
      && f[|stem|..|f|] == "(" + kind + ").eif"
      && ReplaceAll(f, "(" + kind + ").eif") == stem
    ensures !IsDataKind(kind)
  {
    var raw := "(" + kind + ").eif";
    assert stem + "(" + kind + ").eif" == stem + raw;
    DigitSuffixMatch(stem, kind, raw);
    SuffixRemoved(stem, raw);
    assert !IsDataKind(kind) by {
      assert Lower(kind)[0] == kind[0];
    }
  }

  /** In `STEM(NN).eif` the leftmost match of the pattern is the suffix. */
  lemma DigitSuffixMatch(stem: string, kind: string, raw: string)
    requires forall k :: 0 <= k < |stem| ==> stem[k] != '('
    requires |kind| > 0 && forall k :: 0 <= k < |kind| ==> IsDigit(kind[k])
    requires raw == "(" + kind + ").eif"
    ensures FirstTag(stem + raw, 0) == Some((|stem|, |stem + raw|))
    ensures (stem + raw)[|stem|..|stem + raw|] == raw
  {
    var f := stem + raw;
    NoTagIn(stem, raw);
    var close := |stem| + 1 + |kind|;
    assert f[|stem|] == '(' && f[close] == ')';
    assert DigitRunEnd(f, |stem| + 1) == close by {
      assert forall k :: |stem| + 1 <= k < close ==> f[k] == kind[k - |stem| - 1];
    }
    assert CaselessAt(f, close + 1, ".eif") by {
      assert f[close + 1..] == ".eif";
    }
    assert TagEnd(f, |stem|) == Some(|f|);
    assert f[|stem|..|f|] == raw;
  }

  /** A suffix starting with `(` after a stem without `(` is removed once, leaving the stem. */
  lemma SuffixRemoved(stem: string, raw: string)
    requires forall k :: 0 <= k < |stem| ==> stem[k] != '('
    requires |raw| > 0 && raw[0] == '('
    ensures ReplaceAll(stem + raw, raw) == stem
  {
    var f := stem + raw;
    forall p | 0 <= p < |stem|
      ensures !OccursAt(f, raw, p)
    {
      assert f[p] == stem[p];
    }
    ReplaceTrailingTag(stem, raw);
  }

  /**
   * The usual name `STEM(NN).eif`, with no `(` in `STEM`: the line carries
   * the counter, the type `NN` and `STEM` with the suffix removed, or is
   * blank when the type is unknown.
   */
  lemma PlainNameLine(counter: nat, stem: string, kind: string)
    requires forall k :: 0 <= k < |stem| ==> stem[k] != '('
    requires |kind| > 0 && forall k :: 0 <= k < |kind| ==> IsDigit(kind[k])
    ensures var line := ByFileName(counter, stem + "(" + kind + ").eif");
      if KindTail(kind, stem).Some? then
        line == Some("  " + Row(counter, kind, stem, KindTail(kind, stem).value) + "\n")
      else line == Some("  \n")
  {
    PlainNameTag(stem, kind);
    var raw := "(" + kind + ").eif";
    assert raw[1..|raw| - 5] == kind;
    assert "  " + "" + "\n" == "  \n";
  }

  /** A data file `STEM(data).eif`, in any letter case, gets no line. */
  lemma DataFileSkipped(counter: nat, stem: string, data: string)
    requires forall k :: 0 <= k < |stem| ==> stem[k] != '('
    requires Lower(data) == "data"
    ensures ByFileName(counter, stem + "(" + data + ").eif") == Some("")
  {
    var raw := "(" + data + ").eif";
    assert stem + "(" + data + ").eif" == stem + raw;
    DataSuffixMatch(stem, data, raw);
    assert raw[1..|raw| - 5] == data;
  }

  /** In `STEM(data).eif` the leftmost match of the pattern is the suffix. */
  lemma DataSuffixMatch(stem: string, data: string, raw: string)
    requires forall k :: 0 <= k < |stem| ==> stem[k] != '('
    requires Lower(data) == "data"
    requires raw == "(" + data + ").eif"
    ensures FirstTag(stem + raw, 0) == Some((|stem|, |stem + raw|))
    ensures (stem + raw)[|stem|..|stem + raw|] == raw
  {
    var f := stem + raw;
    NoTagIn(stem, raw);
    assert |data| == 4;
    assert f[|stem| + 1..|stem| + 5] == data;
    DataWord(f, |stem| + 1, data);
    assert CaselessAt(f, |stem| + 6, ".eif") by {
      assert f[|stem| + 6..] == ".eif";
    }
    assert f[|stem|] == '(' && f[|stem| + 5] == ')';
    assert DigitRunEnd(f, |stem| + 1) == |stem| + 1;
    assert TagEnd(f, |stem|) == Some(|f|);
    assert f[|stem|..|f|] == raw;
  }

  /** A spelling of `data` matches the pattern's `data` and does not start with a digit. */
  lemma DataWord(f: string, i: nat, data: string)
    requires i + 4 <= |f| && f[i..i + 4] == data && Lower(data) == "data"
    ensures CaselessAt(f, i, "data") && !IsDigit(f[i])
  {
    forall k | 0 <= k < 4
      ensures LowerChar(f[i + k]) == "data"[k]
    {
      assert f[i + k] == data[k];
      assert Lower(data)[k] == LowerChar(data[k]);
    }
    assert LowerChar(f[i]) == 'd';
  }

  /** The usual name loses exactly its suffix. */
  lemma {:induction false} ReplaceTrailingTag(stem: string, raw: string)
    requires |raw| > 0
    requires forall p :: 0 <= p < |stem| ==> !OccursAt(stem + raw, raw, p)
    ensures ReplaceAll(stem + raw, raw) == stem
    decreases |stem|
  {
    var s := stem + raw;
    if stem == [] {
      assert s == raw && s[..|raw|] == raw && s[|raw|..] == [];
    } else {
      assert !OccursAt(s, raw, 0);
      assert s[..|raw|] != raw;
      forall p | 0 <= p < |stem| - 1
        ensures !OccursAt(stem[1..] + raw, raw, p)
      {
        assert (stem[1..] + raw)[p..p + |raw|] == s[p + 1..p + 1 + |raw|];
        assert !OccursAt(s, raw, p + 1);
      }
      assert s[1..] == stem[1..] + raw;
      ReplaceTrailingTag(stem[1..], raw);
    }
  }

  /**
   * `make_upgrade10_eif_string_for_tables` depends on the name only through
   * its lower-cased form: the blob test looks for `.`, which lower-casing
   * leaves in place.
   */
  lemma TableTailCaseless(a: string, b: string)
    requires Lower(a) == Lower(b)
    ensures TableTail(a) == TableTail(b)
  {
    assert |a| == |b|;
    forall k | 0 <= k < |a|
      ensures a[k] == '.' <==> b[k] == '.'
    {
      assert Lower(a)[k] == Lower(b)[k];
    }
    IndexFromAgree(a, b, '.', 0);
    assert IsBlobName(a) == IsBlobName(b);
  }

  lemma {:induction false} IndexFromAgree(a: string, b: string, c: char, from: nat)
    requires |a| == |b| && forall k :: 0 <= k < |a| ==> (a[k] == c <==> b[k] == c)
    ensures IndexFrom(a, c, from) == IndexFrom(b, c, from)
    decreases |a| - from
  {
    if from < |a| {
      IndexFromAgree(a, b, c, from + 1);
    }
  }

  // ---------------------------------------------------------------------------
  // The numbered lines of the file
  // ---------------------------------------------------------------------------

  /** The first line always describes the configuration `Version(14).eif`. */
  const VersionFile := "Version(14).eif"

  /** The names of `names` that `keep` holds for, in order. */
  function Filter(keep: string -> bool, names: seq<string>): (r: seq<string>)
    ensures |r| <= |names|
    ensures forall i :: 0 <= i < |r| ==> keep(r[i])
  {
    if names == [] then []
    else Filter(keep, names[..|names| - 1]) + (if keep(names[|names| - 1]) then [names[|names| - 1]] else [])
  }

  /** The files of `names` that get a line, in order. */
  function Kept(names: seq<string>): seq<string>
  {
    Filter(HasLine, names)
  }

  /** The line of `Version(14).eif`, which is always written first, with number 1. */
  const VersionLine := "  " + Row(1, "14", "Version", ConfigurationTail) + "\n"

  lemma VersionFileLine()
    ensures ByFileName(1, VersionFile) == Some(VersionLine)
  {
    PlainNameLine(1, "Version", "14");
    VersionFileParts();
  }

  lemma VersionFileParts()
    ensures "Version" + "(" + "14" + ").eif" == VersionFile
    ensures KindTail("14", "Version") == Some(ConfigurationTail)
  {
  }

  /**
   * The lines the line maker `make` writes for `names` after the lines
   * `start`: a file whose line is written takes the next number.
   */
  function Numbered(make: (nat, string) -> Option<string>, start: seq<string>, names: seq<string>): seq<string>
  {
    if names == [] then start
    else
      var before := Numbered(make, start, names[..|names| - 1]);
      var line := make(|before| + 1, names[|names| - 1]);
      if Written(line) then before + [line.value] else before
  }

  /**
   * When `make` writes a line for exactly the names `keep` holds for, the
   * lines after `start` are those of the kept names, numbered on from
   * `|start| + 1`, and none of them is empty.
   */
  lemma {:induction false} NumberedLines(make: (nat, string) -> Option<string>, keep: string -> bool,
                                         start: seq<string>, names: seq<string>)
    requires forall c, n :: Written(make(c, n)) <==> keep(n)
    ensures var r := Numbered(make, start, names);
      && |r| == |start| + |Filter(keep, names)|
      && r[..|start|] == start
      && forall i :: |start| <= i < |r| ==> make(i + 1, Filter(keep, names)[i - |start|]) == Some(r[i]) && r[i] != ""
    decreases |names|
  {
    if names != [] {
      NumberedLines(make, keep, start, names[..|names| - 1]);
    }
  }

  /**
   * The lines written for the files `names`, after the one for
   * `Version(14).eif`.
   */
  function Lines(names: seq<string>): seq<string>
  {
    Numbered(ByFileName, [VersionLine], names)
  }

  /** A file's line is written exactly when the name has a suffix that is not `(data)`, whatever its number. */
  lemma WrittenIffKept()
    ensures forall c: nat, n: string :: Written(ByFileName(c, n)) <==> HasLine(n)
  {
    forall c: nat, n: string
      ensures Written(ByFileName(c, n)) <==> HasLine(n)
    {
      WrittenIffHasLine(c, n);
    }
  }

  /** The first line describes `Version(14).eif`, and one line follows per file that gets one. */
  lemma LinesCount(names: seq<string>)
    ensures |Lines(names)| == 1 + |Kept(names)|
    ensures Lines(names)[0] == VersionLine
  {
    WrittenIffKept();
    NumberedLines(ByFileName, HasLine, [VersionLine], names);
    assert Lines(names)[..1] == [VersionLine];
  }

  /**
   * Line `i` after the first is the line of the `i`-th file that gets one,
   * with number `i + 1`, and no written line is empty.
   */
  lemma LinesNumbered(names: seq<string>)
    ensures |Lines(names)| == 1 + |Kept(names)|
    ensures forall i :: 1 <= i < |Lines(names)| ==>
      ByFileName(i + 1, Kept(names)[i - 1]) == Some(Lines(names)[i]) && Lines(names)[i] != ""
  {
    WrittenIffKept();
    NumberedLines(ByFileName, HasLine, [VersionLine], names);
    var r, kept := Lines(names), Kept(names);
    forall i | 1 <= i < |r|
      ensures ByFileName(i + 1, kept[i - 1]) == Some(r[i]) && r[i] != ""
    {
      assert kept[i - 1] == Filter(HasLine, names)[i - |[VersionLine]|];
    }
  }

  /** One more file adds its line, numbered after the lines before it, when that line is written. */
  lemma LinesSnoc(names: seq<string>, j: nat)
    requires j < |names|
    ensures var before := Lines(names[..j]);
      var line := ByFileName(|before| + 1, names[j]);
      Lines(names[..j + 1]) == if Written(line) then before + [line.value] else before
  {
    assert names[..j + 1][..j] == names[..j];
  }

  /**
   * The lines `generate_upgrade10_eif` writes between the header and the
   * footer (git2patch.py:1265-1273), for the file names (without their
   * directories) of the listed `.eif` files.
   */
  method GenerateUpgrade10Lines(names: seq<string>) returns (lines: seq<string>)
    ensures lines == Lines(names)
  {
    VersionFileLine();
    var first := ByFileName(1, VersionFile);
    lines := [first.value];
    var counter := 2;
    for j := 0 to |names|
      invariant counter == |lines| + 1
      invariant lines == Lines(names[..j])
    {
      LinesSnoc(names, j);
      var line := ByFileName(counter, names[j]);
      if line.Some? && line.value != "" {
        lines := lines + [line.value];
        counter := counter + 1;
      }
    }
    assert names[..|names|] == names;
  }
}
