/**
 * The build version of a bank client build and the platform of a binary
 * (git2patch.py:1300-1381, 1547-1548). A file is given by its bytes, or by
 * `None` when it cannot be opened.
 */
module BuildVersion {

  import opened Wrappers
  import opened Text

  /** A byte of a file. */
  type Byte = b: int | 0 <= b < 256

  /** What a call returns, or `Raised` when an exception escapes it. */
  datatype Outcome<T> = Returned(value: T) | Raised

  // ---------------------------------------------------------------------------
  // Little-endian integers: `struct.unpack("<H")`, `struct.unpack("<L")`
  // ---------------------------------------------------------------------------

  function U16At(data: seq<Byte>, i: nat): (r: nat)
    requires i + 2 <= |data|
    ensures r < 0x1_0000
  {
    data[i] as int + 0x100 * data[i + 1] as int
  }

  function U32At(data: seq<Byte>, i: nat): (r: nat)
    requires i + 4 <= |data|
    ensures r < 0x1_0000_0000
  {
    U16At(data, i) + 0x1_0000 * U16At(data, i + 2)
  }

  /** The two bytes of `x`, low byte first. */
  function U16Le(x: nat): (r: seq<Byte>)
    requires x < 0x1_0000
    ensures |r| == 2
  {
    [x % 0x100, x / 0x100]
  }

  /** The four bytes of `x`, low byte first. */
  function U32Le(x: nat): (r: seq<Byte>)
    requires x < 0x1_0000_0000
    ensures |r| == 4
  {
    U16Le(x % 0x1_0000) + U16Le(x / 0x1_0000)
  }

  /** Reading back a written 16-bit value gives the value, wherever it sits. */
  lemma U16RoundTrip(data: seq<Byte>, i: nat, x: nat)
    requires x < 0x1_0000
    requires i + 2 <= |data| && data[i..i + 2] == U16Le(x)
    ensures U16At(data, i) == x
  {
    assert data[i] == U16Le(x)[0] && data[i + 1] == U16Le(x)[1];
  }

  /** Reading back a written 32-bit value gives the value, wherever it sits. */
  lemma U32RoundTrip(data: seq<Byte>, i: nat, x: nat)
    requires x < 0x1_0000_0000
    requires i + 4 <= |data| && data[i..i + 4] == U32Le(x)
    ensures U32At(data, i) == x
  {
    assert data[i..i + 2] == data[i..i + 4][..2] == U16Le(x % 0x1_0000);
    assert data[i + 2..i + 4] == data[i..i + 4][2..] == U16Le(x / 0x1_0000);
    U16RoundTrip(data, i, x % 0x1_0000);
    U16RoundTrip(data, i + 2, x / 0x1_0000);
  }

  /** And writing a read value gives back the bytes it was read from. */
  lemma U32Bytes(data: seq<Byte>, i: nat)
    requires i + 4 <= |data|
    ensures U32Le(U32At(data, i)) == data[i..i + 4]
  {
    var lo := U16At(data, i);
    var hi := U16At(data, i + 2);
    Split16(lo, hi);
    assert U16Le(lo) == data[i..i + 2];
    assert U16Le(hi) == data[i + 2..i + 4];
  }

  // ---------------------------------------------------------------------------
  // The halves of a 32-bit word
  // ---------------------------------------------------------------------------

  /** `x & 0x0000ffff` of a 32-bit `x`. */
  function Low16(x: nat): nat
  {
    x % 0x1_0000
  }

  /** `(x & 0xffff0000) >> 16` of a 32-bit `x`. */
  function High16(x: nat): nat
  {
    x / 0x1_0000
  }

  /** A word built from two halves splits back into them. */
  lemma Split16(lo: nat, hi: nat)
    requires lo < 0x1_0000
    ensures Low16(lo + 0x1_0000 * hi) == lo
    ensures High16(lo + 0x1_0000 * hi) == hi
  {
    var x := lo + 0x1_0000 * hi;
    assert x == hi * 0x1_0000 + lo;
  }

  // ---------------------------------------------------------------------------
  // `"%d.%d.%d.%d"`
  // ---------------------------------------------------------------------------

  function Format(a: nat, b: nat, c: nat, d: nat): string
  {
    NatToString(a) + "." + (NatToString(b) + "." + (NatToString(c) + "." + NatToString(d)))
  }

  /** Different numbers are written differently. */
  lemma {:induction false} NatToStringInjective(n: nat, m: nat)
    requires NatToString(n) == NatToString(m)
    ensures n == m
    decreases n
  {
    var s := NatToString(n);
    assert s[|s| - 1] == '0' + (n % 10) as char;
    assert s[|s| - 1] == '0' + (m % 10) as char;
    if n >= 10 && m >= 10 {
      assert NatToString(n / 10) == s[..|s| - 1] == NatToString(m / 10);
      NatToStringInjective(n / 10, m / 10);
    }
  }

  predicate NoDot(x: string)
  {
    forall k :: 0 <= k < |x| ==> x[k] != '.'
  }

  /** Splitting at a dot that follows a dot-free prefix. */
  lemma SplitAfter(x: string, rest: string)
    requires NoDot(x)
    ensures Split(x + "." + rest, '.') == [x] + Split(rest, '.')
  {
    var s := x + "." + rest;
    assert IndexFrom(s, '.', 0) == Some(|x|) by {
      assert s[|x|] == '.';
      assert forall k :: 0 <= k < |x| ==> s[k] == x[k];
    }
    assert s[..|x|] == x;
    assert s[|x| + 1..] == rest;
  }

  lemma SplitOne(z: string)
    requires NoDot(z)
    ensures Split(z, '.') == [z]
  {
    assert IndexFrom(z, '.', 0).None?;
  }

  lemma SplitThree(x: string, y: string, z: string)
    requires NoDot(x) && NoDot(y) && NoDot(z)
    ensures Split(x + "." + (y + "." + z), '.') == [x, y, z]
  {
    SplitOne(z);
    SplitAfter(y, z);
    SplitAfter(x, y + "." + z);
  }

  /** Four dot-free pieces joined by dots split back into them. */
  lemma SplitDotted(w: string, x: string, y: string, z: string)
    requires NoDot(w) && NoDot(x) && NoDot(y) && NoDot(z)
    ensures Split(w + "." + (x + "." + (y + "." + z)), '.') == [w, x, y, z]
  {
    SplitThree(x, y, z);
    SplitAfter(w, x + "." + (y + "." + z));
  }

  lemma DigitsHaveNoDot(n: nat)
    ensures NoDot(NatToString(n))
  {
  }

  /** The four numbers are the pieces of the version between its dots. */
  lemma FormatSplits(a: nat, b: nat, c: nat, d: nat)
    ensures Split(Format(a, b, c, d), '.') == [NatToString(a), NatToString(b), NatToString(c), NatToString(d)]
  {
    DigitsHaveNoDot(a);
    DigitsHaveNoDot(b);
    DigitsHaveNoDot(c);
    DigitsHaveNoDot(d);
    SplitDotted(NatToString(a), NatToString(b), NatToString(c), NatToString(d));
  }

  /** A formatted version determines its four numbers. */
  lemma FormatInjective(a: nat, b: nat, c: nat, d: nat, a': nat, b': nat, c': nat, d': nat)
    requires Format(a, b, c, d) == Format(a', b', c', d')
    ensures a == a' && b == b' && c == c' && d == d'
  {
    FormatSplits(a, b, c, d);
    FormatSplits(a', b', c', d');
    var p := Split(Format(a, b, c, d), '.');
    assert p[0] == NatToString(a) && p[0] == NatToString(a');
    assert p[1] == NatToString(b) && p[1] == NatToString(b');
    assert p[2] == NatToString(c) && p[2] == NatToString(c');
    assert p[3] == NatToString(d) && p[3] == NatToString(d');
    NatToStringInjective(a, a');
    NatToStringInjective(b, b');
    NatToStringInjective(c, c');
    NatToStringInjective(d, d');
  }

  // ---------------------------------------------------------------------------
  // `__get_exe_file_info__`
  // ---------------------------------------------------------------------------

  /**
   * `struct.pack("32s", u"VS_VERSION_INFO".encode("utf-16-le"))`: the key,
   * two bytes per character, padded with zero bytes to 32.
   */
  const Signature: seq<Byte> := [
    86, 0, 83, 0, 95, 0, 86, 0, 69, 0, 82, 0, 83, 0, 73, 0,
    79, 0, 78, 0, 95, 0, 73, 0, 78, 0, 70, 0, 79, 0, 0, 0]

  /** `pattern` occurs in `data` at `i`. */
  predicate MatchAt(data: seq<Byte>, pattern: seq<Byte>, i: nat)
  {
    i + |pattern| <= |data| && data[i..i + |pattern|] == pattern
  }

  /** `data.find(pattern, from)`, as an index; `None` for `-1`. */
  function Find(data: seq<Byte>, pattern: seq<Byte>, from: nat): (r: Option<nat>)
    decreases |data| - from
    ensures r.Some? ==> from <= r.value && MatchAt(data, pattern, r.value)
    ensures r.Some? ==> forall i :: from <= i < r.value ==> !MatchAt(data, pattern, i)
    ensures r.None? ==> forall i :: from <= i ==> !MatchAt(data, pattern, i)
  {
    if from + |pattern| > |data| then None
    else if MatchAt(data, pattern, from) then Some(from)
    else Find(data, pattern, from + 1)
  }

  /** `"%d.%d.%d.%d"` of the words `ver_ms` and `ver_ls`, in the order the script uses. */
  function VersionString(ms: nat, ls: nat): string
  {
    Format(Low16(ls), High16(ms), Low16(ms), High16(ls))
  }

  /** The version in the 13 words after the signature: words 4 and 5 are `ver_ms` and `ver_ls`. */
  function BlockVersion(block: seq<Byte>): string
    requires |block| == 13 * 4
  {
    VersionString(U32At(block, 4 * 4), U32At(block, 5 * 4))
  }

  /**
   * `__get_exe_file_info__` on the contents of a file (`None`: it cannot be
   * read): `None` without the signature, an exception when fewer than 13
   * words follow it, and otherwise words 4 and 5 of those 13 as a version.
   */
  function ExeFileInfo(file: Option<seq<Byte>>): Outcome<Option<string>>
  {
    match file
    case None => Returned(None)
    case Some(data) =>
      match Find(data, Signature, 0)
      case None => Returned(None)
      case Some(offset) =>
        var block := data[offset + 32..if offset + 32 + 13 * 4 <= |data| then offset + 32 + 13 * 4 else |data|];
        if |block| != 13 * 4 then Raised
        else Returned(Some(BlockVersion(block)))
  }

  /**
   * A version found in a file is four numbers below 65536 and is never the
   * word `unknown`.
   */
  lemma ExeFileInfoShape(file: Option<seq<Byte>>)
    requires ExeFileInfo(file).Returned? && ExeFileInfo(file).value.Some?
    ensures exists a: nat, b: nat, c: nat, d: nat ::
              && a < 0x1_0000 && b < 0x1_0000 && c < 0x1_0000 && d < 0x1_0000
              && ExeFileInfo(file).value.value == Format(a, b, c, d)
    ensures ExeFileInfo(file).value.value != "unknown"
  {
    var data := file.value;
    var offset := Find(data, Signature, 0).value;
    var block := data[offset + 32..offset + 32 + 13 * 4];
    var ms, ls := U32At(block, 16), U32At(block, 20);
    var v := Format(Low16(ls), High16(ms), Low16(ms), High16(ls));
    assert ExeFileInfo(file).value.value == v;
    var n := NatToString(Low16(ls));
    assert v[0] == n[0] && IsDigit(n[0]);
    assert High16(ms) < 0x1_0000 && High16(ls) < 0x1_0000;
  }

  /**
   * Where the bytes follow the `VS_VERSIONINFO` layout of the Windows SDK,
   * the key is preceded by three 16-bit fields and padded to a 4-byte
   * boundary, so `VS_FIXEDFILEINFO` starts 34 bytes after the key: two
   * bytes into the 13 words read. Its fourth, fifth and sixth words,
   * `dwFileVersionLS`, `dwProductVersionMS` and `dwProductVersionLS`, then
   * sit at bytes 14 to 26 of the block, and the version read is the product
   * version's major and minor, the file version's build and the product
   * version's revision.
   */
  lemma VersionInfoLayout(block: seq<Byte>, fileLS: nat, productMS: nat, productLS: nat)
    requires fileLS < 0x1_0000_0000 && productMS < 0x1_0000_0000 && productLS < 0x1_0000_0000
    requires |block| == 13 * 4
    requires block[14..26] == U32Le(fileLS) + U32Le(productMS) + U32Le(productLS)
    ensures BlockVersion(block) == Format(High16(productMS), Low16(productMS), High16(fileLS), Low16(productLS))
  {
    var fields := block[14..26];
    FieldHalves(fields, fileLS, productMS, productLS);
    assert block[16..24] == fields[2..10];
    assert U32At(block, 16) == U32At(fields, 2);
    assert U32At(block, 20) == U32At(fields, 6);
    Split16(High16(fileLS), Low16(productMS));
    Split16(High16(productMS), Low16(productLS));
  }

  /** The words read two bytes into three written words straddle their halves. */
  lemma FieldHalves(fields: seq<Byte>, x: nat, y: nat, z: nat)
    requires x < 0x1_0000_0000 && y < 0x1_0000_0000 && z < 0x1_0000_0000
    requires fields == U32Le(x) + U32Le(y) + U32Le(z)
    ensures U32At(fields, 2) == High16(x) + 0x1_0000 * Low16(y)
    ensures U32At(fields, 6) == High16(y) + 0x1_0000 * Low16(z)
  {
    assert fields[2..4] == U16Le(High16(x));
    assert fields[4..6] == U16Le(Low16(y));
    assert fields[6..8] == U16Le(High16(y));
    assert fields[8..10] == U16Le(Low16(z));
    U16RoundTrip(fields, 2, High16(x));
    U16RoundTrip(fields, 4, Low16(y));
    U16RoundTrip(fields, 6, High16(y));
    U16RoundTrip(fields, 8, Low16(z));
  }

  // ---------------------------------------------------------------------------
  // `extract_build_version`
  // ---------------------------------------------------------------------------

  /** A version the script accepts: a debug build reports `1.0.0.0` or `0.0.0.0`. */
  predicate Plausible(version: Option<string>)
  {
    version.Some? && version.value != "1.0.0.0" && version.value != "0.0.0.0"
  }

  /** On a decoded version the two debug strings are exactly the two debug numbers. */
  lemma PlausibleNumbers(a: nat, b: nat, c: nat, d: nat)
    ensures Plausible(Some(Format(a, b, c, d))) <==> (a, b, c, d) != (1, 0, 0, 0) && (a, b, c, d) != (0, 0, 0, 0)
  {
    DebugVersions();
    if Format(a, b, c, d) == "1.0.0.0" {
      FormatInjective(a, b, c, d, 1, 0, 0, 0);
    }
    if Format(a, b, c, d) == "0.0.0.0" {
      FormatInjective(a, b, c, d, 0, 0, 0, 0);
    }
  }

  lemma DebugVersions()
    ensures Format(1, 0, 0, 0) == "1.0.0.0"
    ensures Format(0, 0, 0, 0) == "0.0.0.0"
  {
    assert NatToString(0) == "0";
    assert NatToString(1) == "1";
  }

  /** What `__get_exe_file_info__` gives for each candidate file. */
  function Infos(files: seq<Option<seq<Byte>>>): (r: seq<Outcome<Option<string>>>)
    ensures |r| == |files|
    ensures forall i :: 0 <= i < |files| ==> r[i] == ExeFileInfo(files[i])
  {
    seq(|files|, i requires 0 <= i < |files| => ExeFileInfo(files[i]))
  }

  /** The candidates of `infos` were read without a plausible version, and without an exception. */
  predicate Skipped(infos: seq<Outcome<Option<string>>>)
  {
    forall j :: 0 <= j < |infos| ==> infos[j].Returned? && !Plausible(infos[j].value)
  }

  /** The loop over the candidates, from the first. */
  function Select(infos: seq<Outcome<Option<string>>>): Outcome<string>
  {
    if infos == [] then Returned("unknown")
    else match infos[0]
      case Raised => Raised
      case Returned(version) => if Plausible(version) then Returned(version.value) else Select(infos[1..])
  }

  /**
   * `extract_build_version` for a build directory that exists or not, with
   * the contents of the candidate files in the order they are listed.
   */
  function BuildVersionOf(buildPathExists: bool, files: seq<Option<seq<Byte>>>): Outcome<string>
  {
    if buildPathExists then Select(Infos(files)) else Returned("unknown")
  }

  /** The candidates before index `i` were all skipped. */
  predicate SkippedBefore(infos: seq<Outcome<Option<string>>>, i: nat)
    requires i <= |infos|
  {
    Skipped(infos[..i])
  }

  lemma SkippedBeforeTail(infos: seq<Outcome<Option<string>>>, i: nat)
    requires 1 <= i <= |infos|
    ensures SkippedBefore(infos, i) <==> SkippedBefore(infos, 1) && SkippedBefore(infos[1..], i - 1)
  {
    assert infos[..i] == infos[..1] + infos[1..][..i - 1];
    assert forall j :: 1 <= j < i ==> infos[..i][j] == infos[1..][..i - 1][j - 1];
  }

  /** An exception escapes exactly when a candidate fails before any plausible one. */
  lemma {:induction false} SelectRaises(infos: seq<Outcome<Option<string>>>)
    ensures Select(infos) == Raised <==>
      exists i :: 0 <= i < |infos| && infos[i].Raised? && SkippedBefore(infos, i)
  {
    if infos != [] {
      SelectRaises(infos[1..]);
      assert infos[..0] == [];
      if infos[0].Returned? && !Plausible(infos[0].value) {
        if Select(infos[1..]) == Raised {
          var i :| 0 <= i < |infos| - 1 && infos[1..][i].Raised? && SkippedBefore(infos[1..], i);
          SkippedBeforeTail(infos, i + 1);
        }
        if i :| 0 <= i < |infos| && infos[i].Raised? && SkippedBefore(infos, i) {
          SkippedBeforeTail(infos, i);
          assert infos[1..][i - 1].Raised?;
        }
      }
    }
  }

  /**
   * The version is that of the first candidate with a plausible version, or
   * `unknown` when every candidate is read without one.
   */
  lemma {:induction false} SelectReturns(infos: seq<Outcome<Option<string>>>, v: string)
    ensures Select(infos) == Returned(v) <==>
      || (Skipped(infos) && v == "unknown")
      || exists i :: 0 <= i < |infos| && infos[i] == Returned(Some(v)) && Plausible(Some(v)) && SkippedBefore(infos, i)
  {
    if infos != [] {
      SelectReturns(infos[1..], v);
      assert infos[..0] == [];
      SkippedBeforeTail(infos, |infos|);
      assert infos[..|infos|] == infos && infos[1..][..|infos| - 1] == infos[1..];
      if infos[0].Returned? && !Plausible(infos[0].value) {
        if i :| 0 <= i < |infos| - 1 && infos[1..][i] == Returned(Some(v)) && Plausible(Some(v)) && SkippedBefore(infos[1..], i) {
          SkippedBeforeTail(infos, i + 1);
        }
        if i :| 0 <= i < |infos| && infos[i] == Returned(Some(v)) && Plausible(Some(v)) && SkippedBefore(infos, i) {
          SkippedBeforeTail(infos, i);
          assert infos[1..][i - 1] == Returned(Some(v));
        }
      }
    }
  }

  /**
   * `extract_build_version` (git2patch.py:1358-1381): the first plausible
   * version among the candidates, `unknown` when there is none or the
   * directory is missing. An exception inside the loop is re-raised (as a
   * `NameError`, the handler naming an unbound variable).
   */
  method ExtractBuildVersion(buildPathExists: bool, files: seq<Option<seq<Byte>>>) returns (result: Outcome<string>)
    ensures result == BuildVersionOf(buildPathExists, files)
  {
    result := Returned("unknown");
    if buildPathExists {
      var i := 0;
      while i < |files|
        invariant 0 <= i <= |files|
        invariant Select(Infos(files)) == Select(Infos(files)[i..])
      {
        assert Infos(files)[i..][1..] == Infos(files)[i + 1..];
        var info := ExeFileInfo(files[i]);
        if info.Raised? {
          return Raised;
        }
        var version := info.value;
        if version.Some? && version.value != "1.0.0.0" && version.value != "0.0.0.0" {
          result := Returned(version.value);
          return;
        }
        i := i + 1;
      }
    }
  }

  // ---------------------------------------------------------------------------
  // `is_20_version`
  // ---------------------------------------------------------------------------

  /** `is_20_version`: the version names release 20.1, 20.2 or 20.3 anywhere in it. */
  predicate IsVersion20(version: string)
  {
    Contains(version, "20.1") || Contains(version, "20.2") || Contains(version, "20.3")
  }

  /** Releases 20.1 to 20.3 are recognised whatever their build and revision. */
  lemma Release20(b: nat, c: nat, d: nat)
    requires 1 <= b <= 3
    ensures IsVersion20(Format(20, b, c, d))
  {
    assert NatToString(20) == "20";
    var v := Format(20, b, c, d);
    var w := "20." + NatToString(b);
    assert NatToString(b) == [('0' + b as char)];
    assert v[..4] == w;
    assert OccursAt(v, w, 0);
    assert w == "20.1" || w == "20.2" || w == "20.3";
  }

  /**
   * The test looks at the whole string: `19.2.20.1`, release 19.2 with
   * build 20, counts as release 20.
   */
  lemma SubstringTestReachesBuild()
    ensures IsVersion20(Format(19, 2, 20, 1))
  {
    var v := Format(19, 2, 20, 1);
    assert NatToString(19) == "19" && NatToString(2) == "2" && NatToString(20) == "20" && NatToString(1) == "1";
    assert v == "19.2.20.1";
    assert OccursAt(v, "20.1", 5);
  }

  /** Nor is the major number checked: `21.20.10.0`, release 21.20, counts as release 20. */
  lemma SubstringTestReachesMinor()
    ensures IsVersion20(Format(21, 20, 10, 0))
  {
    var v := Format(21, 20, 10, 0);
    assert NatToString(21) == "21" && NatToString(20) == "20" && NatToString(10) == "10" && NatToString(0) == "0";
    assert v == "21.20.10.0";
    assert OccursAt(v, "20.1", 3);
  }

  // ---------------------------------------------------------------------------
  // `get_binary_platform`
  // ---------------------------------------------------------------------------

  /** The COFF machine types the script knows, as named by the PE/COFF format. */
  const ImageFileMachineI386 := 332
  const ImageFileMachineIa64 := 512
  const ImageFileMachineAmd64 := 34404

  /** The platform the script reports for a machine type. */
  function MachineName(machine: nat): string
  {
    if machine == ImageFileMachineI386 then "Win32"
    else if machine == ImageFileMachineIa64 || machine == ImageFileMachineAmd64 then "Win64"
    else "Unknown"
  }

  /**
   * `bytes.decode("utf-8", errors="strict")` succeeds on the first (at
   * most two) bytes of a file: all ASCII, or one complete two-byte sequence.
   */
  predicate Utf8Decodes(head: seq<Byte>)
    requires |head| <= 2
  {
    (forall k :: 0 <= k < |head| ==> head[k] < 0x80)
    || (|head| == 2 && 0xC2 <= head[0] <= 0xDF && 0x80 <= head[1] <= 0xBF)
  }

  /** The `MZ` signature of a DOS header. */
  const DosSignature: seq<Byte> := [0x4D, 0x5A]

  function Min(a: nat, b: nat): nat
  {
    if a <= b then a else b
  }

  /**
   * `get_binary_platform` on the contents of a file (`None`: it cannot be
   * read): `None` for a file that does not start with `MZ`, an exception
   * when the first two bytes are not UTF-8 or the file ends before a field
   * it reads, and otherwise the platform of the machine type in the COFF
   * header that `e_lfanew` (offset 60) points at.
   */
  function BinaryPlatform(file: Option<seq<Byte>>): Outcome<Option<string>>
  {
    match file
    case None => Returned(None)
    case Some(data) =>
      var head := data[..Min(2, |data|)];
      if !Utf8Decodes(head) then Raised
      else if head != DosSignature then Returned(None)
      else
        var pointer := data[Min(60, |data|)..Min(64, |data|)];
        if |pointer| != 4 then Raised
        else
          var headerOffset := U32At(pointer, 0);
          var field := data[Min(headerOffset + 4, |data|)..Min(headerOffset + 6, |data|)];
          if |field| != 2 then Raised
          else Returned(Some(MachineName(U16At(field, 0))))
  }

  /**
   * An image with the DOS signature, `e_lfanew` at offset 60 and the
   * machine type four bytes after the header offset gets that machine's
   * platform.
   */
  lemma ImagePlatform(data: seq<Byte>, headerOffset: nat, machine: nat)
    requires headerOffset < 0x1_0000_0000 && machine < 0x1_0000
    requires 64 <= |data| && headerOffset + 6 <= |data|
    requires data[..2] == DosSignature
    requires data[60..64] == U32Le(headerOffset)
    requires data[headerOffset + 4..headerOffset + 6] == U16Le(machine)
    ensures BinaryPlatform(Some(data)) == Returned(Some(MachineName(machine)))
  {
    var pointer := data[60..64];
    U32RoundTrip(pointer, 0, headerOffset);
    var field := data[headerOffset + 4..headerOffset + 6];
    U16RoundTrip(field, 0, machine);
  }

  /** A file whose first two bytes are ASCII other than `MZ` is not an executable. */
  lemma NotAnExecutable(data: seq<Byte>)
    requires 2 <= |data| && data[0] < 0x80 && data[1] < 0x80
    requires data[..2] != DosSignature
    ensures BinaryPlatform(Some(data)) == Returned(None)
  {
  }
}
