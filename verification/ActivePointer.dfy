/** The text of the `active` and `previous` files: printing, parsing and validating a pointer. */
module ActivePointer {
  import opened Prelude

  const U64_MAX := 0xffff_ffff_ffff_ffff
  type U64 = n: nat | n <= 0xffff_ffff_ffff_ffff

  const VERSION := "prts-mcp-active/v1"

  datatype ActiveDatabase = ActiveDatabase(fileName: string, sourceVersion: string, revision: U64, sha256: string)
  datatype PointerError = Unsupported | BadRevision | Invalid

  // ---------------------------------------------------------------------------------------
  // Lines
  // ---------------------------------------------------------------------------------------

  /** The position of the first line feed, or the length. */
  function LineEnd(text: string): (i: nat)
    ensures i <= |text| && '\n' !in text[..i] && (i < |text| ==> text[i] == '\n')
  {
    if text == [] || text[0] == '\n' then 0
    else
      var i := LineEnd(text[1..]);
      assert text[..1 + i] == [text[0]] + text[1..][..i];
      1 + i
  }

  /** One carriage return before the line feed belongs to the line ending. */
  function WithoutReturn(line: string): string {
    if line != [] && line[|line| - 1] == '\r' then line[..|line| - 1] else line
  }

  /** `str::lines`: the last line feed ends the last line and starts none. */
  function Lines(text: string): seq<string> {
    if text == [] then []
    else
      var i := LineEnd(text);
      if i == |text| then [text] else [WithoutReturn(text[..i])] + Lines(text[i + 1..])
  }

  /** Lines written out with the given line endings. */
  function Weave(lines: seq<string>, ends: seq<string>): string
    requires |lines| == |ends|
  {
    if lines == [] then [] else lines[0] + ends[0] + Weave(lines[1..], ends[1..])
  }

  /** A line feed or both characters; the last line may go without. */
  ghost predicate LineEnds(ends: seq<string>) {
    forall i :: 0 <= i < |ends| ==> ends[i] == "\n" || ends[i] == "\r\n" || (i == |ends| - 1 && ends[i] == "")
  }

  lemma WeaveCons(line: string, end: string, lines: seq<string>, ends: seq<string>)
    requires |lines| == |ends|
    ensures Weave([line] + lines, [end] + ends) == line + end + Weave(lines, ends)
  {
    assert ([line] + lines)[1..] == lines && ([end] + ends)[1..] == ends;
  }

  lemma FirstLine(text: string, i: nat) returns (end: string)
    requires i < |text| && text[i] == '\n'
    ensures text == WithoutReturn(text[..i]) + end + text[i + 1..] && (end == "\n" || end == "\r\n")
  {
    end := if WithoutReturn(text[..i]) == text[..i] then "\n" else "\r\n";
    assert WithoutReturn(text[..i]) + end == text[..i + 1];
  }

  /** Any text is its lines with some endings between them. */
  lemma {:induction false} LinesOfText(text: string) returns (ends: seq<string>)
    ensures |ends| == |Lines(text)| && LineEnds(ends) && text == Weave(Lines(text), ends)
  {
    hide WithoutReturn, Weave;
    if text == [] {
      WeaveNone();
      return [];
    }
    var i := LineEnd(text);
    if i == |text| {
      WeaveNone();
      WeaveCons(text, "", [], []);
      assert [text] + [] == Lines(text) && [""] + [] == [""];
      return [""];
    }
    var end := FirstLine(text, i);
    var rest := LinesOfText(text[i + 1..]);
    WeaveCons(WithoutReturn(text[..i]), end, Lines(text[i + 1..]), rest);
    return [end] + rest;
  }

  lemma WeaveNone()
    ensures Weave([], []) == []
  {
  }

  lemma {:induction false} LineEndAfter(line: string, rest: string)
    requires '\n' !in line
    ensures LineEnd(line + "\n" + rest) == |line|
  {
    var text := line + "\n" + rest;
    if line != [] {
      assert text[1..] == line[1..] + "\n" + rest;
      LineEndAfter(line[1..], rest);
    }
  }

  ghost predicate Plain(line: string) {
    line != [] && '\n' !in line && '\r' !in line
  }

  lemma {:induction false} NoLineFeed(text: string)
    requires '\n' !in text
    ensures LineEnd(text) == |text|
  {
    if text != [] {
      NoLineFeed(text[1..]);
    }
  }

  lemma LineAfter(line: string, end: string, rest: string)
    requires Plain(line) && (end == "\n" || end == "\r\n")
    ensures Lines(line + end + rest) == [line] + Lines(rest)
  {
    var text := line + end + rest;
    var whole := line + end[..|end| - 1];
    assert text == whole + "\n" + rest;
    LineEndAfter(whole, rest);
    assert text[..|whole|] == whole && text[|whole| + 1..] == rest;
    assert WithoutReturn(whole) == line;
  }

  /** Lines without line ending characters are read back whatever endings they were written with. */
  lemma {:induction false} LinesOfWeave(lines: seq<string>, ends: seq<string>)
    requires |lines| == |ends| && LineEnds(ends) && forall i :: 0 <= i < |lines| ==> Plain(lines[i])
    ensures Lines(Weave(lines, ends)) == lines
  {
    hide Weave;
    if lines == [] {
      WeaveNone();
    } else {
      var rest := Weave(lines[1..], ends[1..]);
      LinesOfWeave(lines[1..], ends[1..]);
      WeaveCons(lines[0], ends[0], lines[1..], ends[1..]);
      assert [lines[0]] + lines[1..] == lines && [ends[0]] + ends[1..] == ends;
      if ends[0] == "" {
        assert lines[1..] == [] && ends[1..] == [];
        WeaveNone();
        NoLineFeed(lines[0]);
        assert Weave(lines, ends) == lines[0];
      } else {
        LineAfter(lines[0], ends[0], rest);
      }
    }
  }

  // ---------------------------------------------------------------------------------------
  // Numbers
  // ---------------------------------------------------------------------------------------

  predicate IsDigit(c: char) { '0' <= c <= '9' }
  predicate AllDigits(s: string) { forall i :: 0 <= i < |s| ==> IsDigit(s[i]) }

  function Digit(d: nat): char
    requires d < 10
  {
    '0' + (d as char)
  }

  function Show(n: nat): string {
    if n < 10 then [Digit(n)] else Show(n / 10) + [Digit(n % 10)]
  }

  function Value(s: string): nat
    requires AllDigits(s)
  {
    if s == [] then 0 else 10 * Value(s[..|s| - 1]) + (s[|s| - 1] - '0') as nat
  }

  /** `u64::from_str`: an optional plus sign, at least one digit, no overflow. */
  function ParseU64(s: string): Option<U64> {
    var digits := if s != [] && s[0] == '+' then s[1..] else s;
    if digits == [] || !AllDigits(digits) || Value(digits) > U64_MAX then None else Some(Value(digits))
  }

  function Zeros(k: nat): string {
    seq(k, _ => '0')
  }

  /** The spellings of a number that parse: its decimal form after zeros and an optional plus. */
  ghost predicate Spelled(s: string, n: nat) {
    exists plus, k :: SpelledAs(s, n, plus, k)
  }

  predicate SpelledAs(s: string, n: nat, plus: bool, k: nat) {
    s == (if plus then "+" else "") + (Zeros(k) + Show(n))
  }

  lemma {:induction false} ShowIsDigits(n: nat)
    ensures Show(n) != [] && AllDigits(Show(n))
  {
    if n >= 10 {
      ShowIsDigits(n / 10);
    }
  }

  lemma {:induction false} ValueOfShow(k: nat, n: nat)
    ensures AllDigits(Zeros(k) + Show(n)) && Value(Zeros(k) + Show(n)) == n
    decreases n, k
  {
    ShowIsDigits(n);
    var s := Zeros(k) + Show(n);
    var front, last := s[..|s| - 1], Digit(n % 10);
    assert s[|s| - 1] == last && (last - '0') as nat == n % 10;
    if n >= 10 {
      ValueOfShow(k, n / 10);
      assert front == Zeros(k) + Show(n / 10);
    } else if k > 0 {
      ValueOfZeros(k);
      assert front == Zeros(k);
    }
  }

  lemma {:induction false} ValueOfZeros(k: nat)
    ensures AllDigits(Zeros(k)) && Value(Zeros(k)) == 0
  {
    if k > 0 {
      ValueOfZeros(k - 1);
      assert Zeros(k)[..k - 1] == Zeros(k - 1);
    }
  }

  /** Digits are the decimal form of their value after some zeros. */
  lemma {:induction false} DigitsAreShown(s: string) returns (k: nat)
    requires s != [] && AllDigits(s)
    ensures s == Zeros(k) + Show(Value(s))
  {
    hide Show;
    var front, last := s[..|s| - 1], (s[|s| - 1] - '0') as nat;
    assert s == front + [Digit(last)];
    ShowAppends(Value(front), last);
    if front == [] {
      k := 0;
    } else {
      k := DigitsAreShown(front);
      if Value(front) == 0 {
        k := k + 1;
        assert front == Zeros(k);
      }
    }
  }

  lemma ShowAppends(n: nat, d: nat)
    requires d < 10
    ensures Show(10 * n + d) == (if n == 0 then [] else Show(n)) + [Digit(d)]
    ensures Show(0) == "0"
  {
    assert (10 * n + d) / 10 == n && (10 * n + d) % 10 == d;
  }

  lemma ParsedAreSpelled(s: string, n: U64)
    ensures ParseU64(s) == Some(n) <==> Spelled(s, n)
  {
    var digits := if s != [] && s[0] == '+' then s[1..] else s;
    if ParseU64(s) == Some(n) {
      var k := DigitsAreShown(digits);
      assert s == (if digits == s then "" else "+") + digits;
      assert SpelledAs(s, n, digits != s, k);
    }
    if Spelled(s, n) {
      var plus, k :| SpelledAs(s, n, plus, k);
      ValueOfShow(k, n);
      ShowIsDigits(n);
      assert IsDigit((Zeros(k) + Show(n))[0]);
      assert digits == Zeros(k) + Show(n);
    }
  }

  // ---------------------------------------------------------------------------------------
  // Pointers
  // ---------------------------------------------------------------------------------------

  predicate IsAlphanumeric(c: char) { '0' <= c <= '9' || 'a' <= c <= 'z' || 'A' <= c <= 'Z' }

  predicate EndsWith(s: string, suffix: string) {
    |s| >= |suffix| && s[|s| - |suffix|..] == suffix
  }

  predicate IsValid(p: ActiveDatabase) {
    && !(p.fileName != [] && p.fileName[0] == '.')
    && EndsWith(p.fileName, ".sqlite")
    && (forall c :: c in p.fileName ==> IsAlphanumeric(c) || c in "._-")
    && p.sourceVersion != []
    && (forall c :: c in p.sourceVersion ==> IsAlphanumeric(c) || c in "-_")
    && p.revision != 0
    && |p.sha256| == 64
    && (forall c :: c in p.sha256 ==> IsDigit(c) || 'a' <= c <= 'f')
  }

  ghost predicate InRanges(s: string, ranges: seq<(char, char)>) {
    forall c :: c in s ==> exists i :: 0 <= i < |ranges| && ranges[i].0 <= c <= ranges[i].1
  }

  lemma Ranges(c: char)
    ensures var ranges := [('0', '9'), ('a', 'z'), ('A', 'Z'), ('.', '.'), ('_', '_'), ('-', '-')];
            IsAlphanumeric(c) || c in "._-" <==> exists i :: 0 <= i < |ranges| && ranges[i].0 <= c <= ranges[i].1
    ensures var ranges := [('0', '9'), ('a', 'z'), ('A', 'Z'), ('_', '_'), ('-', '-')];
            IsAlphanumeric(c) || c in "-_" <==> exists i :: 0 <= i < |ranges| && ranges[i].0 <= c <= ranges[i].1
    ensures var ranges := [('0', '9'), ('a', 'f')];
            IsDigit(c) || 'a' <= c <= 'f' <==> exists i :: 0 <= i < |ranges| && ranges[i].0 <= c <= ranges[i].1
  {
    var ranges := [('0', '9'), ('a', 'z'), ('A', 'Z'), ('.', '.'), ('_', '_'), ('-', '-')];
    assert ranges[0] == ('0', '9') && ranges[1] == ('a', 'z') && ranges[2] == ('A', 'Z');
    assert ranges[3] == ('.', '.') && ranges[4] == ('_', '_') && ranges[5] == ('-', '-');
    var others := [('0', '9'), ('a', 'z'), ('A', 'Z'), ('_', '_'), ('-', '-')];
    assert others[0] == ('0', '9') && others[1] == ('a', 'z') && others[2] == ('A', 'Z');
    assert others[3] == ('_', '_') && others[4] == ('-', '-');
    var hex := [('0', '9'), ('a', 'f')];
    assert hex[0] == ('0', '9') && hex[1] == ('a', 'f');
  }

  lemma CharactersInRanges(s: string)
    ensures (forall c :: c in s ==> IsAlphanumeric(c) || c in "._-")
            <==> InRanges(s, [('0', '9'), ('a', 'z'), ('A', 'Z'), ('.', '.'), ('_', '_'), ('-', '-')])
    ensures (forall c :: c in s ==> IsAlphanumeric(c) || c in "-_")
            <==> InRanges(s, [('0', '9'), ('a', 'z'), ('A', 'Z'), ('_', '_'), ('-', '-')])
    ensures (forall c :: c in s ==> IsDigit(c) || 'a' <= c <= 'f') <==> InRanges(s, [('0', '9'), ('a', 'f')])
  {
    forall c: char { Ranges(c); }
    hide IsAlphanumeric, IsDigit;
  }

  lemma JoinedInRanges(a: string, b: string, ranges: seq<(char, char)>)
    ensures InRanges(a + b, ranges) <==> InRanges(a, ranges) && InRanges(b, ranges)
  {
    if InRanges(a + b, ranges) {
      forall c | c in a ensures exists i :: 0 <= i < |ranges| && ranges[i].0 <= c <= ranges[i].1 {
        assert c in a + b;
      }
      forall c | c in b ensures exists i :: 0 <= i < |ranges| && ranges[i].0 <= c <= ranges[i].1 {
        assert c in a + b;
      }
    }
  }

  /** Only characters that file names here have, no separator among them. */
  ghost predicate IsNameText(s: string) {
    InRanges(s, [('0', '9'), ('a', 'z'), ('A', 'Z'), ('.', '.'), ('_', '_'), ('-', '-')])
  }

  /** A stem that is not empty and does not begin with a dot, before `.sqlite`. */
  ghost predicate IsDatabaseName(name: string) {
    exists stem: string :: IsStem(stem, name)
  }

  ghost predicate IsStem(stem: string, name: string) {
    name == stem + ".sqlite" && stem != [] && stem[0] != '.' && IsNameText(stem)
  }

  lemma NameBeforeSuffix(stem: string)
    ensures IsNameText(stem + ".sqlite") <==> IsNameText(stem)
  {
    CharactersInRanges(".sqlite");
    JoinedInRanges(stem, ".sqlite", [('0', '9'), ('a', 'z'), ('A', 'Z'), ('.', '.'), ('_', '_'), ('-', '-')]);
    hide InRanges;
  }

  lemma StemIsFound(name: string)
    requires !(name != [] && name[0] == '.') && EndsWith(name, ".sqlite") && IsNameText(name)
    ensures IsDatabaseName(name)
  {
    hide IsNameText;
    var stem := name[..|name| - 7];
    assert name == stem + ".sqlite";
    NameBeforeSuffix(stem);
    assert IsStem(stem, name);
  }

  lemma DatabaseNames(name: string)
    ensures IsDatabaseName(name) <==> !(name != [] && name[0] == '.') && EndsWith(name, ".sqlite") && IsNameText(name)
  {
    hide IsNameText;
    if !(name != [] && name[0] == '.') && EndsWith(name, ".sqlite") && IsNameText(name) {
      StemIsFound(name);
    } else {
      forall stem: string ensures !IsStem(stem, name) {
        if IsStem(stem, name) {
          NameBeforeSuffix(stem);
          SuffixStays(stem);
        }
      }
    }
  }

  lemma SuffixStays(stem: string)
    requires stem != []
    ensures EndsWith(stem + ".sqlite", ".sqlite") && (stem + ".sqlite")[0] == stem[0]
  {
  }

  /** Exactly which pointers are valid: the file's name has no separators, so that it stays in its
      directory; the revision is not zero; and the digest is 64 lower-case hexadecimal digits. */
  lemma ValidExactly(p: ActiveDatabase)
    ensures IsValid(p) <==>
              && IsDatabaseName(p.fileName)
              && p.sourceVersion != []
              && InRanges(p.sourceVersion, [('0', '9'), ('a', 'z'), ('A', 'Z'), ('_', '_'), ('-', '-')])
              && p.revision >= 1
              && |p.sha256| == 64 && InRanges(p.sha256, [('0', '9'), ('a', 'f')])
  {
    DatabaseNames(p.fileName);
    CharactersInRanges(p.fileName);
    CharactersInRanges(p.sourceVersion);
    CharactersInRanges(p.sha256);
    assert IsNameText(p.fileName) <==> forall c :: c in p.fileName ==> IsAlphanumeric(c) || c in "._-";
    hide InRanges, IsDatabaseName, IsNameText;
  }

  function Parse(text: string): Result<ActiveDatabase, PointerError> {
    var lines := Lines(text);
    if |lines| != 5 || lines[0] != VERSION then Err(Unsupported)
    else
      var revision := ParseU64(lines[3]);
      if revision.None? then Err(BadRevision)
      else
        var p := ActiveDatabase(lines[1], lines[2], revision.value, lines[4]);
        if IsValid(p) then Ok(p) else Err(Invalid)
  }

  function Encode(p: ActiveDatabase): Result<string, PointerError> {
    if !IsValid(p) then Err(Invalid)
    else Ok(VERSION + "\n" + p.fileName + "\n" + p.sourceVersion + "\n" + Show(p.revision) + "\n" + p.sha256 + "\n")
  }

  function LinesOf(p: ActiveDatabase, revision: string): seq<string> {
    [VERSION, p.fileName, p.sourceVersion, revision, p.sha256]
  }

  /** The pointer's five lines, with some spelling of the revision and some line endings. */
  ghost predicate Writes(text: string, p: ActiveDatabase, revision: string, ends: seq<string>) {
    Spelled(revision, p.revision) && |ends| == 5 && LineEnds(ends) && text == Weave(LinesOf(p, revision), ends)
  }

  lemma LinesArePlain(p: ActiveDatabase, revision: string)
    requires IsValid(p) && Spelled(revision, p.revision)
    ensures forall i :: 0 <= i < 5 ==> Plain(LinesOf(p, revision)[i])
  {
    var plus, k :| SpelledAs(revision, p.revision, plus, k);
    ShowIsDigits(p.revision);
  }

  lemma AcceptedIsWritten(text: string, p: ActiveDatabase)
    requires Parse(text) == Ok(p)
    ensures IsValid(p) && exists revision, ends :: Writes(text, p, revision, ends)
  {
    hide LineEnds, IsValid, Spelled;
    var ends := LinesOfText(text);
    var revision := Lines(text)[3];
    ParsedAreSpelled(revision, p.revision);
    assert Lines(text) == LinesOf(p, revision);
    assert Writes(text, p, revision, ends);
  }

  lemma WrittenIsAccepted(text: string, p: ActiveDatabase, revision: string, ends: seq<string>)
    requires IsValid(p) && Writes(text, p, revision, ends)
    ensures Parse(text) == Ok(p)
  {
    hide IsValid, Spelled;
    LinesArePlain(p, revision);
    LinesOfWeave(LinesOf(p, revision), ends);
    ParsedAreSpelled(revision, p.revision);
  }

  /** Exactly the texts that are accepted as a given pointer: a valid pointer's five lines, with any
      line endings and any accepted spelling of the revision. */
  lemma AcceptedTexts(text: string, p: ActiveDatabase)
    ensures Parse(text) == Ok(p) <==> IsValid(p) && exists revision, ends :: Writes(text, p, revision, ends)
  {
    hide IsValid, Writes, Parse;
    if Parse(text) == Ok(p) {
      AcceptedIsWritten(text, p);
    }
    if IsValid(p) {
      forall revision, ends | Writes(text, p, revision, ends) ensures Parse(text) == Ok(p) {
        WrittenIsAccepted(text, p, revision, ends);
      }
    }
  }

  /** Encoding fails on exactly the invalid pointers; what it writes is parsed back. */
  lemma RoundTrip(p: ActiveDatabase)
    ensures Encode(p).Ok? <==> IsValid(p)
    ensures IsValid(p) ==> Parse(Encode(p).value) == Ok(p)
  {
    if IsValid(p) {
      var revision, ends := Show(p.revision), ["\n", "\n", "\n", "\n", "\n"];
      assert SpelledAs(revision, p.revision, false, 0);
      WeaveFive(VERSION, p.fileName, p.sourceVersion, revision, p.sha256, "\n");
      assert Writes(Encode(p).value, p, revision, ends);
      AcceptedTexts(Encode(p).value, p);
    }
  }

  lemma WeaveFive(a: string, b: string, c: string, d: string, e: string, end: string)
    ensures Weave([a, b, c, d, e], [end, end, end, end, end])
            == a + end + b + end + c + end + d + end + e + end
  {
    WeaveCons(e, end, [], []);
    WeaveCons(d, end, [e], [end]);
    WeaveCons(c, end, [d, e], [end, end]);
    WeaveCons(b, end, [c, d, e], [end, end, end]);
    WeaveCons(a, end, [b, c, d, e], [end, end, end, end]);
    assert [a] + [b, c, d, e] == [a, b, c, d, e] && [b] + [c, d, e] == [b, c, d, e];
    assert [c] + [d, e] == [c, d, e] && [d] + [e] == [d, e] && [e] + [] == [e];
    assert [end] + [end, end, end, end] == [end, end, end, end, end];
  }

  /** Whatever text was accepted, the pointer is valid and its own encoding means the same. */
  lemma AcceptedReencodes(text: string)
    requires Parse(text).Ok?
    ensures IsValid(Parse(text).value) && Encode(Parse(text).value).Ok?
    ensures Parse(Encode(Parse(text).value).value) == Parse(text)
  {
    AcceptedTexts(text, Parse(text).value);
    RoundTrip(Parse(text).value);
  }
}
