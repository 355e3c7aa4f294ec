/** The corpus file-naming rules of run.py: how a mapping row's audio and
    text paths are rewritten (`__format_audio_mapping`,
    `__format_text_mapping`) and the standard names `standardize_files`
    gives each row's files, `<source>_<number>.wav` and
    `<source>_<number>.txt` with the number zero-filled to six digits.
    Paths follow POSIX `pathlib` rules; the renames themselves are not
    modelled, only the names they use. */
module CorpusNames {
  import opened Text

  // ---------------------------------------------------------------------------
  // pathlib: name and stem

  /** A component `pathlib` drops: an empty one or ".". */
  predicate Dropped(c: string) {
    c == "" || c == "."
  }

  /** The last component of `parts` that `pathlib` keeps (it drops empty
      components and "."), or "" when there is none. */
  function LastComponent(parts: seq<string>): (r: string)
    ensures r != "."
    ensures r != "" ==>
      exists i :: 0 <= i < |parts| && parts[i] == r && (forall j :: i < j < |parts| ==> Dropped(parts[j]))
    ensures r == "" <==> forall j :: 0 <= j < |parts| ==> Dropped(parts[j])
    decreases |parts|
  {
    if |parts| == 0 then ""
    else
      var init := parts[..|parts| - 1];
      var c := parts[|parts| - 1];
      if Dropped(c) then
        var r := LastComponent(init);
        assert forall j :: 0 <= j < |init| ==> init[j] == parts[j];
        r
      else c
  }

  /** `Path(path).name` for a POSIX path. */
  function Name(path: string): string {
    LastComponent(Split(path, "/"))
  }

  /** The name is never "." and holds no '/'. */
  lemma NameShape(path: string)
    ensures Name(path) != "." && '/' !in Name(path)
  {
    var parts := Split(path, "/");
    var name := LastComponent(parts);
    if name != "" {
      SplitPiecesAvoidSep(path, "/");
      var k :| 0 <= k < |parts| && parts[k] == name;
      assert "/" == ['/'];
      ContainsChar(name, '/');
    }
  }

  /** `Path(name).stem` (CPython): the name without its last suffix, where a
      suffix starts at a '.' that is neither the first nor the last
      character. */
  function Stem(name: string): string {
    match LastIndexOf(name, '.')
    case None => name
    case Some(i) => if 0 < i < |name| - 1 then name[..i] else name
  }

  /** The stem is a prefix of the name; a shorter stem is non-empty and is
      followed by a '.' that is not the last character and after which no
      '.' follows. */
  lemma StemShape(name: string)
    ensures Stem(name) <= name
    ensures var r := Stem(name);
      |r| < |name| ==> 0 < |r| && |r| + 1 < |name| && name[|r|] == '.' && '.' !in name[|r| + 1..]
    ensures (exists i :: 0 < i < |name| - 1 && name[i] == '.' && '.' !in name[i + 1..]) ==> |Stem(name)| < |name|
  {
    match LastIndexOf(name, '.')
    case None =>
    case Some(i) =>
      if 0 < i < |name| - 1 {
        assert forall j :: i + 1 <= j < |name| ==> name[j] == name[i + 1..][j - i - 1];
      }
  }

  /** `__format_audio_mapping`: "audio" joined with the file's name. */
  function FormatAudioMapping(path: string): string {
    var name := Name(path);
    if name == "" then "audio" else "audio/" + name
  }

  /** `__format_text_mapping`: "text" joined with the file's stem plus ".txt". */
  function FormatTextMapping(path: string): string {
    "text/" + Stem(Name(path)) + ".txt"
  }

  // ---------------------------------------------------------------------------
  // decimal numbers and zfill

  predicate IsDigit(c: char) {
    '0' <= c <= '9'
  }

  predicate AllDigits(s: string) {
    forall i :: 0 <= i < |s| ==> IsDigit(s[i])
  }

  function DigitChar(d: nat): (c: char)
    requires d < 10
    ensures IsDigit(c)
  {
    ('0' as int + d) as char
  }

  /** Python's `str(n)` for a natural number. */
  function Decimal(n: nat): (r: string)
    ensures |r| >= 1 && AllDigits(r)
    ensures |r| > 1 ==> r[0] != '0'
    decreases n
  {
    if n < 10 then [DigitChar(n)] else Decimal(n / 10) + [DigitChar(n % 10)]
  }

  /** The value of a string of decimal digits (leading zeros allowed). */
  function ParseDecimal(s: string): nat
    requires AllDigits(s)
    decreases |s|
  {
    if |s| == 0 then 0
    else ParseDecimal(s[..|s| - 1]) * 10 + (s[|s| - 1] as int - '0' as int)
  }

  /** Reading back a printed number gives the number. */
  lemma {:induction false} DecimalRoundTrip(n: nat)
    ensures ParseDecimal(Decimal(n)) == n
    decreases n
  {
    if n >= 10 {
      DecimalRoundTrip(n / 10);
      var s := Decimal(n);
      assert s[..|s| - 1] == Decimal(n / 10);
    }
  }

  /** `k` zero characters. */
  function Zeros(k: nat): (r: string)
    ensures |r| == k && forall i :: 0 <= i < k ==> r[i] == '0'
  {
    seq(k, i => '0')
  }

  /** Leading zeros do not change a number's value. */
  lemma {:induction false} ParseLeadingZeros(k: nat, s: string)
    requires AllDigits(s)
    ensures AllDigits(Zeros(k) + s) && ParseDecimal(Zeros(k) + s) == ParseDecimal(s)
    decreases |s|
  {
    var z := Zeros(k) + s;
    if |s| == 0 {
      assert z == Zeros(k);
      ZerosParseToZero(k);
    } else {
      assert z[..|z| - 1] == Zeros(k) + s[..|s| - 1];
      ParseLeadingZeros(k, s[..|s| - 1]);
    }
  }

  lemma {:induction false} ZerosParseToZero(k: nat)
    ensures AllDigits(Zeros(k)) && ParseDecimal(Zeros(k)) == 0
    decreases k
  {
    if k > 0 {
      assert Zeros(k)[..k - 1] == Zeros(k - 1);
      ZerosParseToZero(k - 1);
    }
  }

  predicate Signed(s: string) {
    |s| > 0 && (s[0] == '+' || s[0] == '-')
  }

  /** Python's `s.zfill(width)`: zeros are added on the left (after a
      leading sign) until the string is `width` long; longer strings are
      left as they are. */
  function ZFill(s: string, width: nat): (r: string)
    ensures |r| == if |s| >= width then |s| else width
    ensures !Signed(s) ==> r[|r| - |s|..] == s && forall i :: 0 <= i < |r| - |s| ==> r[i] == '0'
    ensures Signed(s) ==>
      && r[0] == s[0] && r[|r| - |s| + 1..] == s[1..]
      && forall i :: 1 <= i < |r| - |s| + 1 ==> r[i] == '0'
  {
    if |s| >= width then s
    else if Signed(s) then [s[0]] + Zeros(width - |s|) + s[1..]
    else Zeros(width - |s|) + s
  }

  /** The width of the number field in a standard name. */
  const NumberWidth: nat := 6

  /** `str(n).zfill(6)`. */
  function NumberField(n: nat): string {
    ZFill(Decimal(n), NumberWidth)
  }

  /** The number field is digits only, at least six of them and never cut
      short, and reads back as the number. */
  lemma NumberFieldFacts(n: nat)
    ensures AllDigits(NumberField(n))
    ensures |NumberField(n)| == if |Decimal(n)| >= NumberWidth then |Decimal(n)| else NumberWidth
    ensures ParseDecimal(NumberField(n)) == n
  {
    var d := Decimal(n);
    var f := NumberField(n);
    assert !Signed(d) by { assert IsDigit(d[0]); }
    assert f == Zeros(|f| - |d|) + d;
    ParseLeadingZeros(|f| - |d|, d);
    DecimalRoundTrip(n);
  }

  // ---------------------------------------------------------------------------
  // standardize_files

  /** The standard name of file number `n` of a source, with its extension. */
  function StandardName(source: string, n: nat, ext: string): string {
    source + "_" + NumberField(n) + ext
  }

  /** The standard names of one source and extension are distinct for
      distinct numbers. */
  lemma StandardNameInjective(source: string, n: nat, m: nat, ext: string)
    ensures StandardName(source, n, ext) == StandardName(source, m, ext) ==> n == m
  {
    var a, b := StandardName(source, n, ext), StandardName(source, m, ext);
    if a == b {
      var fa, fb := NumberField(n), NumberField(m);
      var lo := |source| + 1;
      assert |fa| == |fb|;
      assert a[lo..lo + |fa|] == fa;
      assert b[lo..lo + |fb|] == fb;
      NumberFieldFacts(n);
      NumberFieldFacts(m);
    }
  }

  /** The stem of a standard name is `<source>_<number>`, whatever the
      extension, so a row's audio and text files get matching names. */
  lemma StandardNameStem(source: string, n: nat, ext: string)
    requires |ext| >= 2 && ext[0] == '.' && '.' !in ext[1..]
    ensures Stem(StandardName(source, n, ext)) == source + "_" + NumberField(n)
  {
    var base := source + "_" + NumberField(n);
    var name := StandardName(source, n, ext);
    assert name == (base + ".") + ext[1..];
    LastIndexAfterPrefix(base + ".", ext[1..], '.');
    assert name[..|base|] == base;
  }

  /** One mapping row: the audio and text paths of an utterance. */
  datatype MappingRow = MappingRow(audio: string, text: string)

  /** The two renames `standardize_files` makes for one row, each from the
      current file name to the standard one, and the new mapping entries
      (the standard names). */
  datatype RenamePlan = RenamePlan(audioFrom: string, audioTo: string, textFrom: string, textTo: string)

  /** The renames of the row with file number `n`: the files are found by
      the stems of the row's entries and get the standard names. */
  function PlanRow(source: string, row: MappingRow, n: nat): RenamePlan {
    RenamePlan(
      Stem(Name(row.audio)) + ".wav", StandardName(source, n, ".wav"),
      Stem(Name(row.text)) + ".txt", StandardName(source, n, ".txt"))
  }

  /** The new names of rows `0 .. count - 1`, numbered from 1 in row order:
      what `standardize_files` collects into its two lists of new names. */
  predicate NumberedNames(source: string, count: nat, audioNew: seq<string>, textNew: seq<string>) {
    && |audioNew| == count && |textNew| == count
    && forall i :: 0 <= i < count ==>
      audioNew[i] == StandardName(source, i + 1, ".wav") && textNew[i] == StandardName(source, i + 1, ".txt")
  }

  /** The new audio and text names of a row share the stem
      `<source>_<number>`. */
  lemma PlanStems(source: string, row: MappingRow, n: nat, p: RenamePlan)
    requires p == PlanRow(source, row, n)
    ensures Stem(p.audioTo) == source + "_" + NumberField(n) && Stem(p.textTo) == source + "_" + NumberField(n)
  {
    StandardNameStem(source, n, ".wav");
    StandardNameStem(source, n, ".txt");
  }

  /** Every row's new audio and text names share their stem. */
  lemma NumberedNamesStems(source: string, count: nat, audioNew: seq<string>, textNew: seq<string>)
    requires NumberedNames(source, count, audioNew, textNew)
    ensures forall i :: 0 <= i < count ==> Stem(audioNew[i]) == Stem(textNew[i])
  {
    forall i | 0 <= i < count ensures Stem(audioNew[i]) == Stem(textNew[i]) {
      StemsMatch(audioNew[i], textNew[i], source, i + 1);
    }
  }

  /** A row's standard audio and text names share their stem, stated over
      the names themselves so that callers need not unfold `StandardName`. */
  lemma StemsMatch(x: string, y: string, source: string, n: nat)
    requires x == StandardName(source, n, ".wav") && y == StandardName(source, n, ".txt")
    ensures Stem(x) == Stem(y)
  {
    StandardNameStem(source, n, ".wav");
    StandardNameStem(source, n, ".txt");
  }

  /** Standard names for different numbers differ, stated over the names
      themselves so that callers need not unfold `StandardName`. */
  lemma NamesApart(x: string, y: string, source: string, n: nat, m: nat, ext: string)
    requires x == StandardName(source, n, ext) && y == StandardName(source, m, ext) && n != m
    ensures x != y
  {
    StandardNameInjective(source, n, m, ext);
  }

  /** Different rows get distinct new names. */
  lemma NumberedNamesDistinct(source: string, count: nat, audioNew: seq<string>, textNew: seq<string>)
    requires NumberedNames(source, count, audioNew, textNew)
    ensures forall i, j :: 0 <= i < j < count ==> audioNew[i] != audioNew[j] && textNew[i] != textNew[j]
  {
    forall i, j | 0 <= i < j < count ensures audioNew[i] != audioNew[j] && textNew[i] != textNew[j] {
      NamesApart(audioNew[i], audioNew[j], source, i + 1, j + 1, ".wav");
      NamesApart(textNew[i], textNew[j], source, i + 1, j + 1, ".txt");
    }
  }

  /** Naming one more row extends the numbered names by that row's names. */
  lemma NumberedNamesGrow(source: string, count: nat, audioNew: seq<string>, textNew: seq<string>)
    requires NumberedNames(source, count, audioNew, textNew)
    ensures NumberedNames(source, count + 1,
      audioNew + [StandardName(source, count + 1, ".wav")], textNew + [StandardName(source, count + 1, ".txt")])
  {
    var a, t := audioNew + [StandardName(source, count + 1, ".wav")], textNew + [StandardName(source, count + 1, ".txt")];
    forall i | 0 <= i < count + 1
      ensures a[i] == StandardName(source, i + 1, ".wav") && t[i] == StandardName(source, i + 1, ".txt")
    {
      if i < count { assert a[i] == audioNew[i] && t[i] == textNew[i]; }
    }
  }

  /** `standardize_files`: row `i` (counting from 0) becomes file number
      `i + 1`; the new audio and text names are collected in row order. */
  method StandardizeFiles(source: string, rows: seq<MappingRow>) returns (audioNew: seq<string>, textNew: seq<string>)
    ensures NumberedNames(source, |rows|, audioNew, textNew)
    ensures forall i :: 0 <= i < |rows| ==> Stem(audioNew[i]) == Stem(textNew[i])
    ensures forall i, j :: 0 <= i < j < |rows| ==> audioNew[i] != audioNew[j] && textNew[i] != textNew[j]
  {
    audioNew, textNew := [], [];
    var i := 0;
    while i < |rows|
      invariant 0 <= i <= |rows|
      invariant NumberedNames(source, i, audioNew, textNew)
    {
      NumberedNamesGrow(source, i, audioNew, textNew);
      audioNew := audioNew + [StandardName(source, i + 1, ".wav")];
      textNew := textNew + [StandardName(source, i + 1, ".txt")];
      i := i + 1;
    }
    NumberedNamesStems(source, |rows|, audioNew, textNew);
    NumberedNamesDistinct(source, |rows|, audioNew, textNew);
  }

  /** The renames of a row rewritten by the mapping formatters take the
      files named by the original entries: the audio file by the name's stem
      and the text file by the stem plus ".txt". */
  lemma PlanFindsMappedFiles(source: string, audio: string, text: string, n: nat)
    requires Name(audio) != "" && Name(text) != ""
    ensures var p := PlanRow(source, MappingRow(FormatAudioMapping(audio), FormatTextMapping(text)), n);
      p.audioFrom == Stem(Name(audio)) + ".wav" && p.textFrom == Stem(Name(text)) + ".txt"
  {
    AudioMappingKeepsStem(audio);
    TextMappingKeepsStem(text);
  }

  // ---------------------------------------------------------------------------
  // formatting keeps what standardize_files looks up

  /** A slash-free component that `pathlib` keeps is the name of any path
      ending in it. */
  lemma NameOfJoined(dir: string, name: string)
    requires '/' !in dir && '/' !in name && name != "" && name != "."
    ensures Name(dir + "/" + name) == name
  {
    assert "/"[0] == '/';
    SplitJoin("/", [dir, name]);
    assert Join("/", [dir, name]) == dir + "/" + name;
  }

  /** A stem with ".txt" added has that stem back (for a non-empty stem). */
  lemma StemOfTxt(stem: string)
    requires stem != ""
    ensures Stem(stem + ".txt") == stem
  {
    assert stem + ".txt" == (stem + ".") + "txt";
    assert '.' !in "txt";
    LastIndexAfterPrefix(stem + ".", "txt", '.');
    assert (stem + ".txt")[..|stem|] == stem;
  }

  /** The rewritten audio entry keeps the name, hence the stem, that
      `standardize_files` looks the audio file up by. */
  lemma AudioMappingKeepsStem(path: string)
    requires Name(path) != ""
    ensures Name(FormatAudioMapping(path)) == Name(path)
  {
    var name := Name(path);
    NameShape(path);
    NameOfJoined("audio", name);
    assert FormatAudioMapping(path) == "audio" + "/" + name;
  }

  /** The rewritten text entry names the file `<stem>.txt`, the stem being
      that of the original entry. */
  lemma TextMappingNamesFile(path: string)
    requires Name(path) != ""
    ensures Name(FormatTextMapping(path)) == Stem(Name(path)) + ".txt"
  {
    var file := Stem(Name(path)) + ".txt";
    NameShape(path);
    StemOfName(Name(path));
    NameOfJoined("text", file);
    assert FormatTextMapping(path) == "text" + "/" + file;
  }

  /** The rewritten text entry keeps the stem that `standardize_files` looks
      the text file up by. */
  lemma TextMappingKeepsStem(path: string)
    requires Name(path) != ""
    ensures Stem(Name(FormatTextMapping(path))) == Stem(Name(path))
  {
    var stem := Stem(Name(path));
    TextMappingNamesFile(path);
    NameShape(path);
    StemOfName(Name(path));
    StemOfTxt(stem);
  }

  /** The stem of a kept component is a non-empty, slash-free prefix. */
  lemma StemOfName(name: string)
    requires name != "" && '/' !in name
    ensures var stem := Stem(name); stem != "" && '/' !in stem + ".txt" && stem + ".txt" != "."
  {
    var stem := Stem(name);
    StemShape(name);
    assert stem != "" by {
      if |stem| == |name| { assert stem == name; }
    }
    assert forall j :: 0 <= j < |stem| ==> stem[j] == name[j];
    assert '/' !in ".txt";
    assert |stem + ".txt"| > 1;
  }

}
