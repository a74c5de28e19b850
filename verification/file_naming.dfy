/** Output-file numbering: `Utils.generateNextMp4FileName` and
    `AExampleInstrumentedTest.generateProjectId`. Both scan a directory
    listing for files named like `^[0-9]{3}.mp4$`, take the largest
    three-digit prefix (0 when there is none), add one, wrap, and format the
    result with `%03d`. The listing is an input; directory creation and
    listing are not modelled. */
module FileNaming {

  /** One entry of the directory listing: its name and whether it is a file. */
  datatype Entry = Entry(name: string, isFile: bool)

  predicate IsDigit(c: char) {
    '0' <= c <= '9'
  }

  function DigitValue(c: char): (d: nat)
    requires IsDigit(c)
    ensures d < 10
  {
    (c as int) - ('0' as int)
  }

  function DigitChar(d: nat): (c: char)
    requires d < 10
    ensures IsDigit(c) && DigitValue(c) == d
  {
    (('0' as int) + d) as char
  }

  /** Java's `.` does not match the line terminators \n, \r, U+0085,
      U+2028 and U+2029 (no DOTALL flag is given). */
  predicate IsLineTerminator(c: char) {
    c == '\n' || c == '\r' || c == '\U{0085}' || c == '\U{2028}' || c == '\U{2029}'
  }

  /** `name.matches("^[0-9]{3}.mp4$")`: the whole name must match; the dot is
      unescaped, so any non-terminator character is accepted in position 3. */
  predicate MatchesPattern(name: string) {
    && |name| == 7
    && IsDigit(name[0]) && IsDigit(name[1]) && IsDigit(name[2])
    && !IsLineTerminator(name[3])
    && name[4] == 'm' && name[5] == 'p' && name[6] == '4'
  }

  /** An entry contributes to the maximum when it is a file whose name matches. */
  predicate Contributes(e: Entry) {
    e.isFile && MatchesPattern(e.name)
  }

  /** `Integer.valueOf(name.substring(0, 3))` on a three-digit string. */
  function ThreeDigitValue(s: string): (n: nat)
    requires |s| >= 3 && IsDigit(s[0]) && IsDigit(s[1]) && IsDigit(s[2])
    ensures n < 1000
  {
    100 * DigitValue(s[0]) + 10 * DigitValue(s[1]) + DigitValue(s[2])
  }

  function IndexOf(e: Entry): (n: nat)
    requires Contributes(e)
    ensures n < 1000
  {
    ThreeDigitValue(e.name)
  }

  /** `lastIndex` after the scan: the largest contributing prefix, or 0. */
  function LastIndex(entries: seq<Entry>): (m: nat)
    ensures m < 1000
    ensures forall i :: 0 <= i < |entries| && Contributes(entries[i]) ==> IndexOf(entries[i]) <= m
    ensures m == 0 || exists i :: 0 <= i < |entries| && Contributes(entries[i]) && IndexOf(entries[i]) == m
  {
    if |entries| == 0 then 0
    else
      var prev := LastIndex(entries[..|entries| - 1]);
      var e := entries[|entries| - 1];
      if Contributes(e) && IndexOf(e) > prev then IndexOf(e) else prev
  }

  /** `String.format("%03d", n)` for 0 <= n < 1000. */
  function Format3(n: nat): (s: string)
    requires n < 1000
    ensures |s| == 3 && IsDigit(s[0]) && IsDigit(s[1]) && IsDigit(s[2])
  {
    [DigitChar(n / 100), DigitChar((n / 10) % 10), DigitChar(n % 10)]
  }

  /** Formatting and parsing three digits are inverse to each other. */
  lemma FormatParseRoundTrip(n: nat)
    requires n < 1000
    ensures ThreeDigitValue(Format3(n)) == n
  {
    var s := Format3(n);
    assert DigitValue(s[0]) == n / 100;
    assert DigitValue(s[1]) == (n / 10) % 10;
    assert DigitValue(s[2]) == n % 10;
  }

  lemma ParseFormatRoundTrip(s: string)
    requires |s| == 3 && IsDigit(s[0]) && IsDigit(s[1]) && IsDigit(s[2])
    ensures Format3(ThreeDigitValue(s)) == s
  {
    var a, b, c := DigitValue(s[0]), DigitValue(s[1]), DigitValue(s[2]);
    DecimalDigits(a, b, c);
    var t := Format3(ThreeDigitValue(s));
    assert t[0] == s[0] && t[1] == s[1] && t[2] == s[2];
  }

  /** The three decimal digits of 100a + 10b + c are a, b and c. */
  lemma DecimalDigits(a: nat, b: nat, c: nat)
    requires a < 10 && b < 10 && c < 10
    ensures (100 * a + 10 * b + c) / 100 == a
    ensures ((100 * a + 10 * b + c) / 10) % 10 == b
    ensures (100 * a + 10 * b + c) % 10 == c
  {
    var n := 100 * a + 10 * b + c;
    assert n == 10 * (10 * a + b) + c;
    assert n / 10 == 10 * a + b;
    assert n == 100 * a + (10 * b + c);
  }

  /** The index `generateNextMp4FileName` picks: (lastIndex + 1) % 1000. */
  function NextMp4Index(entries: seq<Entry>): (k: nat)
    ensures k < 1000
    ensures k == 0 <==> LastIndex(entries) == 999
    ensures LastIndex(entries) < 999 ==> k == LastIndex(entries) + 1
  {
    var m := LastIndex(entries);
    WrapThousand(m);
    (m + 1) % 1000
  }

  /** `generateNextMp4FileName`: dbPath + "/" + id + ".mp4". */
  function NextMp4FileName(dbPath: string, entries: seq<Entry>): (path: string)
    ensures |path| == |dbPath| + 8
    ensures path[..|dbPath|] == dbPath && path[|dbPath|] == '/'
    ensures path[|dbPath| + 1..] == Format3(NextMp4Index(entries)) + ".mp4"
    ensures ThreeDigitValue(path[|dbPath| + 1..|dbPath| + 4]) == NextMp4Index(entries)
  {
    var id := Format3(NextMp4Index(entries));
    FormatParseRoundTrip(NextMp4Index(entries));
    var path := dbPath + "/" + id + ".mp4";
    assert path[|dbPath| + 1..|dbPath| + 4] == id;
    path
  }

  /** The base name of the generated file always matches the pattern. */
  lemma NextNameMatchesPattern(entries: seq<Entry>)
    ensures MatchesPattern(Format3(NextMp4Index(entries)) + ".mp4")
  {
  }

  /** Unless the maximum has reached 999 and wrapped, the new index is larger
      than every existing index, so no file in the listing has the new name. */
  lemma NextMp4NameIsFresh(entries: seq<Entry>)
    requires LastIndex(entries) < 999
    ensures forall i :: 0 <= i < |entries| && Contributes(entries[i]) ==>
              IndexOf(entries[i]) < NextMp4Index(entries)
    ensures forall i :: 0 <= i < |entries| && entries[i].isFile ==>
              entries[i].name != Format3(NextMp4Index(entries)) + ".mp4"
  {
    var k := NextMp4Index(entries);
    forall i | 0 <= i < |entries| && entries[i].isFile
      ensures entries[i].name != Format3(k) + ".mp4"
    {
      if MatchesPattern(entries[i].name) {
        DifferentIndexDifferentName(entries[i].name, k);
      } else {
        NextNameMatchesPattern(entries);
      }
    }
  }

  /** A matching name whose prefix is not `k` is not the name formatted from `k`. */
  lemma DifferentIndexDifferentName(name: string, k: nat)
    requires k < 1000 && MatchesPattern(name) && ThreeDigitValue(name) != k
    ensures name != Format3(k) + ".mp4"
  {
    FormatParseRoundTrip(k);
    var other := Format3(k) + ".mp4";
    assert ThreeDigitValue(other) == ThreeDigitValue(Format3(k)) by {
      assert other[0] == Format3(k)[0] && other[1] == Format3(k)[1] && other[2] == Format3(k)[2];
    }
  }

  /** The file name for a known next index, spelled out. */
  lemma Mp4NameFor(dbPath: string, entries: seq<Entry>, id: string)
    requires NextMp4Index(entries) < 1000 && Format3(NextMp4Index(entries)) == id
    ensures NextMp4FileName(dbPath, entries) == dbPath + ("/" + id + ".mp4")
  {
  }

  /** An empty directory yields "001"; a directory holding "999.mp4" wraps to "000". */
  lemma NextMp4Examples(dbPath: string)
    ensures NextMp4FileName(dbPath, []) == dbPath + "/001.mp4"
    ensures NextMp4FileName(dbPath, [Entry("999.mp4", true)]) == dbPath + "/000.mp4"
  {
    Mp4NameFor(dbPath, [], "001");
    assert "/" + "001" + ".mp4" == "/001.mp4";
    assert LastIndex([Entry("999.mp4", true)]) == 999 by {
      assert [Entry("999.mp4", true)][..0] == [];
    }
    Mp4NameFor(dbPath, [Entry("999.mp4", true)], "000");
    assert "/" + "000" + ".mp4" == "/000.mp4";
  }

  /** The unescaped dot lets "123xmp4" count as index 123. */
  lemma DotMatchesAnyCharacter(dbPath: string)
    ensures NextMp4FileName(dbPath, [Entry("123xmp4", true)]) == dbPath + "/124.mp4"
  {
    var e := Entry("123xmp4", true);
    assert Contributes(e) && IndexOf(e) == 123;
    assert LastIndex([e]) == 123 by {
      assert [e][..0] == [];
    }
    assert Format3(124) == "124";
    Mp4NameFor(dbPath, [e], "124");
    assert "/" + "124" + ".mp4" == "/124.mp4";
  }

  /** A directory named like an output file is not counted. */
  lemma DirectoriesAreIgnored(dbPath: string)
    ensures NextMp4FileName(dbPath, [Entry("500.mp4", false)]) == dbPath + "/001.mp4"
  {
    assert LastIndex([Entry("500.mp4", false)]) == 0 by {
      assert [Entry("500.mp4", false)][..0] == [];
    }
    Mp4NameFor(dbPath, [Entry("500.mp4", false)], "001");
    assert "/" + "001" + ".mp4" == "/001.mp4";
  }

  /** The id `generateProjectId` picks: (lastIndex + 1) % 100. */
  function NextProjectIndex(entries: seq<Entry>): (k: nat)
    ensures k < 100
    // k is the successor of the largest index, reduced modulo 100
    ensures (LastIndex(entries) + 1 - k) % 100 == 0
    ensures LastIndex(entries) < 99 ==> k == LastIndex(entries) + 1
    ensures k == 0 <==> LastIndex(entries) % 100 == 99
  {
    var m := LastIndex(entries);
    assert m + 1 < 100 ==> (m + 1) % 100 == m + 1;
    ModHundred(m);
    (m + 1) % 100
  }

  lemma WrapThousand(m: nat)
    requires m < 1000
    ensures (m + 1) % 1000 == if m == 999 then 0 else m + 1
  {
    if m < 999 {
      assert (m + 1) % 1000 == m + 1;
    }
  }

  /** What reducing a successor modulo 100 leaves and removes. */
  lemma ModHundred(m: nat)
    ensures (m + 1 - (m + 1) % 100) % 100 == 0
    ensures (m + 1) % 100 == 0 <==> m % 100 == 99
  {
    var q := m / 100;
    var r := m % 100;
    assert m == 100 * q + r && 0 <= r < 100;
    if r == 99 {
      assert m + 1 == 100 * (q + 1);
      assert (m + 1) % 100 == 0;
    } else {
      assert m + 1 == 100 * q + (r + 1) && r + 1 < 100;
      assert (m + 1) % 100 == r + 1;
    }
    assert m + 1 - (m + 1) % 100 == 100 * ((m + 1) / 100);
  }

  /** `generateProjectId`: dbPath + "/" + id, without an extension (the caller
      appends ".mp4"). The id is three digits, so its first digit is '0'. */
  function ProjectId(dbPath: string, entries: seq<Entry>): (path: string)
    ensures |path| == |dbPath| + 4
    ensures path[..|dbPath|] == dbPath && path[|dbPath|] == '/'
    ensures path[|dbPath| + 1..] == Format3(NextProjectIndex(entries))
    ensures path[|dbPath| + 1] == '0'
    ensures ThreeDigitValue(path[|dbPath| + 1..]) == NextProjectIndex(entries)
  {
    var id := Format3(NextProjectIndex(entries));
    FormatParseRoundTrip(NextProjectIndex(entries));
    var path := dbPath + "/" + id;
    assert path[|dbPath| + 1..] == id;
    path
  }

  /** Unless the maximum is 99 or more, the project id exceeds every existing index. */
  lemma ProjectIdIsFresh(entries: seq<Entry>)
    requires LastIndex(entries) < 99
    ensures forall i :: 0 <= i < |entries| && Contributes(entries[i]) ==>
              IndexOf(entries[i]) < NextProjectIndex(entries)
  {
  }

  /** An existing "150.mp4" gives id "051"; an empty directory gives "001". */
  lemma ProjectIdExamples(dbPath: string)
    ensures ProjectId(dbPath, [Entry("150.mp4", true)]) == dbPath + "/051"
    ensures ProjectId(dbPath, []) == dbPath + "/001"
  {
    var e := Entry("150.mp4", true);
    assert Contributes(e) && IndexOf(e) == 150;
    assert LastIndex([e]) == 150 by {
      assert [e][..0] == [];
    }
    assert NextProjectIndex([e]) == 51;
    assert Format3(51) == "051";
    assert "/" + "051" == "/051";
    assert Format3(1) == "001";
    assert "/" + "001" == "/001";
  }
}
