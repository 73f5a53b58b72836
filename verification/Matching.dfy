/** Regular expressions with a proven literal prefix: the text shortcut and the block prefilter. */
module Matching {
  import opened Prelude
  import opened RegexPrefix
  import opened RegexSearch
  import opened Utf

  datatype Prefix =
    | Exact(text: Text)
    | AsciiFold(literal: Text, specialFolds: bool)

  const PREFIX_CAPACITY := 32
  const SMALL_S := 0x73
  const SMALL_K := 0x6B
  const LONG_S := 0x17F
  const KELVIN := 0x212A

  predicate IsAscii(c: nat) { c < 0x80 }
  predicate IsUpper(c: nat) { 0x41 <= c <= 0x5A }
  predicate IsAlphabetic(c: nat) { IsUpper(c) || 0x61 <= c <= 0x7A }
  predicate IsIdeograph(c: nat) { 0x4E00 <= c <= 0x9FFF }

  function Lower(c: nat): nat {
    if IsUpper(c) then c + 0x20 else c
  }

  /** What the pinned Unicode table is checked for: ASCII folds to lower case, only long s and the
      Kelvin sign fold into ASCII from outside, and ideographs fold neither to nor from others. */
  ghost predicate FoldTable(fold: nat -> nat) {
    && (forall c: nat :: IsAscii(c) ==> fold(c) == Lower(c))
    && (forall c: nat :: !IsAscii(c) && IsAscii(fold(c)) ==>
          (c == LONG_S && fold(c) == SMALL_S) || (c == KELVIN && fold(c) == SMALL_K))
    && (forall c: nat :: IsIdeograph(c) || IsIdeograph(fold(c)) ==> fold(c) == c)
  }

  // ---------------------------------------------------------------------------------------
  // Choosing the prefix form
  // ---------------------------------------------------------------------------------------

  /** `char::from_u32` on every literal. */
  function ToText(points: seq<nat>): (r: Option<Text>)
    ensures r.Some? ==> |r.value| == |points| && forall i :: 0 <= i < |points| ==> r.value[i] == points[i]
  {
    if points == [] then Some([])
    else
      var rest := ToText(points[1..]);
      if rest.None? || 0xD800 <= points[0] <= 0xDFFF || 0x10FFFF < points[0] then None
      else Some([points[0] as scalar] + rest.value)
  }

  function LiteralPrefix(a: Analysis): (Option<Prefix>, bool) {
    var chars := ToText(a.points);
    if chars.None? || chars.value == [] then (None, false)
    else
      var text := chars.value;
      var prefix :=
        if !a.insensitive || forall c | c in text :: IsIdeograph(c) || (IsAscii(c) && !IsAlphabetic(c)) then
          Some(Exact(text))
        else if forall c | c in text :: IsAscii(c) then
          Some(AsciiFold(text, SMALL_S in text || SMALL_K in text))
        else None;
      (prefix, a.complete)
  }

  /** Which prefix is kept: none unless there are literals and all are characters; the literals as they
      are when their case matters, or when folding leaves every one alone, an ideograph or an ASCII
      character that is no letter; otherwise, when all are ASCII, the folded form, which notes an s or
      a k; otherwise none, though the program may still be complete. */
  lemma PrefixForm(a: Analysis)
    ensures var (prefix, complete), points := LiteralPrefix(a), a.points;
            if points == [] || !AreCharacters(points) then prefix.None? && !complete
            else
              && complete == a.complete
              && (!a.insensitive || AreCaseless(points) ==>
                    prefix.Some? && prefix.value.Exact? && AreSame(prefix.value.text, points))
              && (a.insensitive && !AreCaseless(points) && AllAscii(points) ==>
                    && prefix.Some? && prefix.value.AsciiFold? && AreSame(prefix.value.literal, points)
                    && (prefix.value.specialFolds <==> 0x73 in points || 0x6B in points))
              && (a.insensitive && !AreCaseless(points) && !AllAscii(points) ==> prefix.None?)
  {
    var points, chars := a.points, ToText(a.points);
    CharactersAreText(points);
    hide ToText;
    if chars.Some? && points != [] {
      SamePoints(chars.value, points);
    }
  }

  predicate AreCharacters(points: seq<nat>) {
    forall i :: 0 <= i < |points| ==> points[i] < 0xD800 || 0xE000 <= points[i] < 0x11_0000
  }

  predicate AreCaseless(points: seq<nat>) {
    forall i :: 0 <= i < |points| ==>
      0x4E00 <= points[i] < 0xA000 || points[i] < 0x41 || 0x5B <= points[i] < 0x61 || 0x7B <= points[i] < 0x80
  }

  lemma SamePoints(text: Text, points: seq<nat>)
    requires AreSame(text, points)
    ensures (forall c | c in text :: IsIdeograph(c) || (IsAscii(c) && !IsAlphabetic(c))) <==> AreCaseless(points)
    ensures (forall c | c in text :: IsAscii(c)) <==> AllAscii(points)
    ensures forall c: scalar :: c in text <==> c in points
  {
    assert forall i :: 0 <= i < |points| ==> text[i] in text && text[i] == points[i];
    forall c: scalar ensures c in text <==> c in points {
      if c in text {
        var i :| 0 <= i < |text| && text[i] == c;
        assert points[i] == c;
      }
      if c in points {
        var i :| 0 <= i < |points| && points[i] == c;
        assert text[i] == c;
      }
    }
  }

  predicate AreSame(text: Text, points: seq<nat>) {
    |text| == |points| && forall i :: 0 <= i < |points| ==> text[i] == points[i]
  }

  lemma {:induction false} CharactersAreText(points: seq<nat>)
    ensures ToText(points).Some? <==> AreCharacters(points)
    ensures ToText(points).Some? ==> AreSame(ToText(points).value, points)
  {
    if points != [] {
      CharactersAreText(points[1..]);
      assert forall i :: 1 <= i < |points| ==> points[i] == points[1..][i - 1];
    }
  }

  /** A compiled expression; `native` is the engine's own answer, none when it gives up. */
  datatype Regex = Regex(prefix: Option<Prefix>, completeLiteral: bool, native: Text -> Option<bool>)

  /** The engine's answers are those of the machine on the expression's bytecode: a match is an
      accepting run, and a complete program is decided by the backtracking matcher. */
  ghost predicate Faithful(native: Text -> Option<bool>, m: Machine, other: Other) {
    && (forall t: Text :: native(t) == Some(true) ==> HasAcceptingRun(m, other, t))
    && (CompleteProgram(m, PREFIX_CAPACITY) ==>
          forall t: Text :: native(t).Some? ==> Decides(m, t, native(t).value))
  }

  ghost predicate HasAcceptingRun(m: Machine, other: Other, t: Text) {
    exists run: seq<Config> :: Accepting(m, other, Utf16(t), run) && run[0] == Config(ENTRY, 0)
  }

  ghost predicate Decides(m: Machine, t: Text, answer: bool) {
    exists k: nat ::
      var outcome := RunFor(m, Utf16(t), State(ENTRY, 0, map[], []), k);
      (outcome.Matched? && answer) || (outcome.NoMatch? && !answer)
  }

  /** The compiler emits case-folded operands and well-formed group saves, in Unicode mode. */
  ghost predicate WellCompiled(m: Machine) {
    && m.unicode && FoldTable(m.fold)
    && var a := Analyse(m.bc, PREFIX_CAPACITY);
       && (a.insensitive ==> forall i :: 0 <= i < |a.points| ==> m.fold(a.points[i]) == a.points[i])
       && (a.complete ==> CompleteProgram(m, PREFIX_CAPACITY))
  }

  ghost predicate Compiled(rx: Regex, m: Machine, other: Other) {
    && WellCompiled(m) && Faithful(rx.native, m, other)
    && (rx.prefix, rx.completeLiteral) == LiteralPrefix(Analyse(m.bc, PREFIX_CAPACITY))
  }

  /** `compile`: the literal prefix is read off the bytecode into a buffer of fixed capacity. */
  method Compile(m: Machine, native: Text -> Option<bool>, ghost other: Other) returns (rx: Regex)
    requires WellCompiled(m) && Faithful(native, m, other)
    ensures Compiled(rx, m, other) && rx.native == native
  {
    var points := new nat[PREFIX_CAPACITY];
    var n, insensitive, complete := RegexPrefix.Prefix(m.bc, points);
    var (prefix, completeLiteral) := LiteralPrefix(Analysis(points[..n], insensitive, complete));
    return Regex(prefix, completeLiteral, native);
  }

  ghost predicate Occurs(m: Machine, t: Text) {
    var a := Analyse(m.bc, PREFIX_CAPACITY);
    exists i: nat :: MatchesAt(m.fold, t, i, a.points, a.insensitive)
  }

  /** The engine never matches a text without the analysed literals. */
  lemma NativeNeedsLiterals(rx: Regex, m: Machine, other: Other, t: Text)
    requires Compiled(rx, m, other) && rx.native(t) == Some(true)
    ensures Occurs(m, t)
  {
    assert HasAcceptingRun(m, other, t);
    var run :| Accepting(m, other, Utf16(t), run) && run[0] == Config(ENTRY, 0);
    var q := PrefixIsMandatory(m, other, Utf16(t), run, PREFIX_CAPACITY);
    WholeOffset(Utf16Of, t);
    var i := ReachesOffset(m, t, 0, q);
    var a := Analyse(m.bc, PREFIX_CAPACITY);
    ConsumesIsMatch(m, t, i, a.points, a.insensitive);
    assert MatchesAt(m.fold, t, i, a.points, a.insensitive);
  }

  /** On a complete program the engine matches exactly the texts that contain the literals. */
  lemma NativeIsLiterals(rx: Regex, m: Machine, other: Other, t: Text)
    requires Compiled(rx, m, other) && Analyse(m.bc, PREFIX_CAPACITY).complete && rx.native(t).Some?
    ensures rx.native(t).value <==> Occurs(m, t)
  {
    var a, text := Analyse(m.bc, PREFIX_CAPACITY), Utf16(t);
    var k, caps := CompleteSearch(m, text, 0, map[], PREFIX_CAPACITY);
    assert Decides(m, t, rx.native(t).value);
    var j: nat :| var outcome := RunFor(m, text, State(ENTRY, 0, map[], []), j);
                  (outcome.Matched? && rx.native(t).value) || (outcome.NoMatch? && !rx.native(t).value);
    DecidedOnce(m, text, State(ENTRY, 0, map[], []), j, k);
    LeftmostIsFirst(m, text, 0, a.points, a.insensitive);
    WholeOffset(Utf16Of, t);
    if rx.native(t).value {
      var q := Leftmost(m, text, 0, a.points, a.insensitive).value.0;
      var i := ReachesOffset(m, t, 0, q);
      ConsumesIsMatch(m, t, i, a.points, a.insensitive);
      assert MatchesAt(m.fold, t, i, a.points, a.insensitive);
    } else if Occurs(m, t) {
      var i: nat :| MatchesAt(m.fold, t, i, a.points, a.insensitive);
      ConsumesIsMatch(m, t, i, a.points, a.insensitive);
      OffsetReached(m, t, 0, i);
      assert OccursAt(m, text, 0, Offset16(t, i), a.points, a.insensitive);
    }
  }

  // ---------------------------------------------------------------------------------------
  // Exact prefixes
  // ---------------------------------------------------------------------------------------

  predicate Contains(hay: seq<byte>, needle: seq<byte>) {
    exists o | 0 <= o <= |hay| :: SliceAt(hay, o, needle)
  }

  /** For an exact prefix, folding never identifies two different characters. */
  lemma ExactOccurrence(m: Machine, t: Text, literal: Text, i: nat)
    requires WellCompiled(m) && LiteralPrefix(Analyse(m.bc, PREFIX_CAPACITY)).0 == Some(Exact(literal))
    ensures var a := Analyse(m.bc, PREFIX_CAPACITY);
            MatchesAt(m.fold, t, i, a.points, a.insensitive)
            <==> i + |literal| <= |t| && t[i..i + |literal|] == literal
  {
    var a := Analyse(m.bc, PREFIX_CAPACITY);
    assert ToText(a.points) == Some(literal);
    if i + |literal| <= |t| {
      forall j | 0 <= j < |literal|
        ensures SamePoint(m.fold, a.insensitive, t[i + j], a.points[j]) <==> t[i + j] == literal[j]
      {
        assert literal[j] in literal;
        ExactChar(m.fold, a.insensitive, t[i + j], literal[j]);
      }
      if MatchesAt(m.fold, t, i, a.points, a.insensitive) {
        forall j | 0 <= j < |literal| ensures t[i..i + |literal|][j] == literal[j] {
          assert SamePoint(m.fold, a.insensitive, t[i + j], a.points[j]);
        }
      }
      if t[i..i + |literal|] == literal {
        forall j | 0 <= j < |a.points| ensures SamePoint(m.fold, a.insensitive, t[i + j], a.points[j]) {
          assert t[i + j] == t[i..i + |literal|][j] == literal[j];
        }
      }
    }
  }

  lemma ExactChar(fold: nat -> nat, insensitive: bool, c: scalar, v: scalar)
    requires FoldTable(fold)
    requires insensitive ==> IsIdeograph(v) || (IsAscii(v) && !IsAlphabetic(v))
    ensures SamePoint(fold, insensitive, c, v) <==> c == v
  {
  }

  // ---------------------------------------------------------------------------------------
  // ASCII prefixes under case folding
  // ---------------------------------------------------------------------------------------

  predicate FoldsTo(c: scalar, v: nat) {
    (IsAscii(c) && Lower(c) == v) || (c == LONG_S && v == SMALL_S) || (c == KELVIN && v == SMALL_K)
  }

  predicate AllAscii(s: seq<int>) {
    forall j :: 0 <= j < |s| ==> 0 <= s[j] < 0x80
  }

  /** The literal matches at `i` up to ASCII case and the two special folds. */
  predicate FoldedAt(t: Text, i: nat, literal: Text) {
    i + |literal| <= |t| && forall j :: 0 <= j < |literal| ==> FoldsTo(t[i + j], literal[j])
  }

  ghost predicate FoldPrefix(m: Machine, literal: Text) {
    && WellCompiled(m) && literal != []
    && Analyse(m.bc, PREFIX_CAPACITY).insensitive
    && ToText(Analyse(m.bc, PREFIX_CAPACITY).points) == Some(literal)
    && (forall i :: 0 <= i < |literal| ==> IsAscii(literal[i]) && Lower(literal[i]) == literal[i])
  }

  lemma FoldPrefixFromAnalysis(m: Machine, literal: Text, special: bool)
    requires WellCompiled(m) && LiteralPrefix(Analyse(m.bc, PREFIX_CAPACITY)).0 == Some(AsciiFold(literal, special))
    ensures FoldPrefix(m, literal)
    ensures special <==> SMALL_S in literal || SMALL_K in literal
  {
    var a := Analyse(m.bc, PREFIX_CAPACITY);
    forall i | 0 <= i < |literal| ensures IsAscii(literal[i]) && Lower(literal[i]) == literal[i] {
      assert literal[i] in literal;
      assert m.fold(a.points[i]) == a.points[i];
    }
  }

  lemma FoldedOccurrence(m: Machine, t: Text, literal: Text, i: nat)
    requires FoldPrefix(m, literal)
    ensures var a := Analyse(m.bc, PREFIX_CAPACITY);
            MatchesAt(m.fold, t, i, a.points, a.insensitive) ==> FoldedAt(t, i, literal)
    ensures var a := Analyse(m.bc, PREFIX_CAPACITY);
            FoldedAt(t, i, literal) && AllAscii(t[i..i + |literal|])
            ==> MatchesAt(m.fold, t, i, a.points, a.insensitive)
  {
    var a := Analyse(m.bc, PREFIX_CAPACITY);
    if MatchesAt(m.fold, t, i, a.points, a.insensitive) {
      forall j | 0 <= j < |literal| ensures FoldsTo(t[i + j], literal[j]) {
        assert SamePoint(m.fold, true, t[i + j], a.points[j]);
      }
    }
    if FoldedAt(t, i, literal) && AllAscii(t[i..i + |literal|]) {
      forall j | 0 <= j < |a.points| ensures SamePoint(m.fold, true, t[i + j], a.points[j]) {
        assert FoldsTo(t[i + j], literal[j]) && t[i + j] == t[i..i + |literal|][j];
      }
    }
  }

  /** ASCII text is its own encoding. */
  lemma {:induction false} AsciiEncodes(s: Text)
    requires AllAscii(s)
    ensures |Utf8(s)| == |s| && forall j :: 0 <= j < |s| ==> Utf8(s)[j] == s[j]
  {
    if s != [] {
      AsciiEncodes(s[1..]);
      assert Utf8Of(s[0]) == [s[0] as byte];
    }
  }

  /** A run of ASCII characters occupies one byte each. */
  lemma AsciiRun(t: Text, i: nat, n: nat)
    requires i + n <= |t| && AllAscii(t[i..i + n])
    ensures Offset(Utf8Of, t, i + n) == Offset(Utf8Of, t, i) + n <= |Utf8(t)|
    ensures SliceAt(Utf8(t), Offset(Utf8Of, t, i), Utf8(t[i..i + n])) && |Utf8(t[i..i + n])| == n
  {
    AsciiEncodes(t[i..i + n]);
    StretchOfCode(Utf8Of, t, i, t[i..i + n]);
    assert t[..i + n] == t[..i] + t[i..i + n];
    EncodeAppend(Utf8Of, t[..i], t[i..i + n]);
  }

  /** The bytes of the character at `i`, where they stand. */
  lemma CharBytes(t: Text, i: nat)
    requires i < |t|
    ensures SliceAt(Utf8(t), Offset(Utf8Of, t, i), Utf8Of(t[i]))
    ensures Offset(Utf8Of, t, i + 1) == Offset(Utf8Of, t, i) + |Utf8Of(t[i])|
  {
    EncodeSplit(Utf8Of, t, i);
  }

  /** Every character takes at least one byte. */
  lemma {:induction false} RoomFor(t: Text, i: nat, n: nat)
    requires i + n <= |t|
    ensures Offset(Utf8Of, t, i) + n <= Offset(Utf8Of, t, i + n) <= |Utf8(t)|
  {
    if n == 0 {
      assert t == t[..i] + t[i..];
      EncodeAppend(Utf8Of, t[..i], t[i..]);
    } else {
      RoomFor(t, i, n - 1);
      CharBytes(t, i + n - 1);
    }
  }

  predicate SameLetters(a: seq<byte>, b: Text) {
    |a| == |b| && forall j :: 0 <= j < |a| ==> Lower(a[j]) == Lower(b[j])
  }

  predicate SameLetterAt(text: seq<byte>, o: nat, literal: Text) {
    o + |literal| <= |text| && SameLetters(text[o..o + |literal|], literal)
  }

  const LONG_S_BYTES: seq<byte> := [0xC5, 0xBF]
  const KELVIN_BYTES: seq<byte> := [0xE2, 0x84, 0xAA]

  predicate HidesFold(text: seq<byte>, o: nat, literal: Text)
    requires literal != []
  {
    o + |literal| <= |text| && Lower(text[o]) == Lower(literal[0]) && !AllAscii(text[o..o + |literal|])
  }

  /** Candidates the scan cannot settle: a special fold may hide behind a non-ASCII byte. */
  ghost predicate Undecided(text: seq<byte>, literal: Text, special: bool)
    requires literal != []
  {
    || (literal[0] == SMALL_S && Contains(text, LONG_S_BYTES))
    || (literal[0] == SMALL_K && Contains(text, KELVIN_BYTES))
    || (special && exists o: nat :: HidesFold(text, o, literal))
  }

  /** The scan from `pos` on: the first settled candidate decides, unless a fold may hide. */
  function FoldScan(text: seq<byte>, literal: Text, special: bool, pos: nat): Option<bool>
    requires literal != [] && pos <= |text|
    decreases |text| - pos
  {
    if pos == |text| then Some(false)
    else if Lower(text[pos]) == Lower(literal[0]) && pos + |literal| <= |text| then
      if SameLetterAt(text, pos, literal) then Some(true)
      else if special && !AllAscii(text[pos..pos + |literal|]) then None
      else FoldScan(text, literal, special, pos + 1)
    else FoldScan(text, literal, special, pos + 1)
  }

  function FoldContains(text: seq<byte>, literal: Text, special: bool): Option<bool>
    requires literal != []
  {
    if (literal[0] == SMALL_S && Contains(text, LONG_S_BYTES)) || (literal[0] == SMALL_K && Contains(text, KELVIN_BYTES))
    then None
    else FoldScan(text, literal, special, 0)
  }

  /** `ascii_fold_contains`: decides containment, or says that only the engine can. */
  method AsciiFoldContains(text: seq<byte>, literal: Text, special: bool) returns (r: Option<bool>)
    requires literal != []
    ensures r == FoldContains(text, literal, special)
  {
    if (literal[0] == SMALL_S && Contains(text, LONG_S_BYTES)) || (literal[0] == SMALL_K && Contains(text, KELVIN_BYTES)) {
      return None;
    }
    for pos := 0 to |text|
      invariant FoldScan(text, literal, special, 0) == FoldScan(text, literal, special, pos)
    {
      if Lower(text[pos]) == Lower(literal[0]) && pos + |literal| <= |text| {
        if SameLetterAt(text, pos, literal) {
          return Some(true);
        }
        if special && !AllAscii(text[pos..pos + |literal|]) {
          return None;
        }
      }
    }
    return Some(false);
  }

  /** What the scan's answers say: yes shows an occurrence, no excludes every one and every
      candidate that could hide a special fold. */
  lemma {:induction false} FoldScanMeans(text: seq<byte>, literal: Text, special: bool, pos: nat)
    requires literal != [] && pos <= |text|
    ensures FoldScan(text, literal, special, pos) == Some(true) ==> exists o: nat :: SameLetterAt(text, o, literal)
    ensures FoldScan(text, literal, special, pos) == Some(false) ==>
              forall o: nat :: pos <= o ==> !SameLetterAt(text, o, literal) && (special ==> !HidesFold(text, o, literal))
    decreases |text| - pos
  {
    if pos < |text| {
      FoldScanMeans(text, literal, special, pos + 1);
      assert pos + |literal| <= |text| ==> text[pos..pos + |literal|][0] == text[pos];
    }
  }

  lemma {:induction false} ScanGivesUp(text: seq<byte>, literal: Text, special: bool, pos: nat)
    requires literal != [] && pos <= |text|
    ensures FoldScan(text, literal, special, pos).None? ==> special && exists o: nat :: HidesFold(text, o, literal)
    decreases |text| - pos
  {
    if pos < |text| {
      ScanGivesUp(text, literal, special, pos + 1);
      assert pos + |literal| <= |text| && Lower(text[pos]) == Lower(literal[0]) && !AllAscii(text[pos..pos + |literal|]) ==>
               HidesFold(text, pos, literal);
    }
  }

  /** The scan answers whenever no special fold may hide, and its answers are right. */
  lemma ScanAnswers(text: seq<byte>, literal: Text, special: bool)
    requires literal != []
    ensures FoldContains(text, literal, special).None? ==> Undecided(text, literal, special)
    ensures FoldContains(text, literal, special).Some? ==>
              (FoldContains(text, literal, special).value <==> exists o: nat :: SameLetterAt(text, o, literal))
  {
    FoldScanMeans(text, literal, special, 0);
    ScanGivesUp(text, literal, special, 0);
  }

  /** A negative scan is right: without undecided candidates a folded occurrence shows in bytes. */
  lemma ScanFindsFolded(t: Text, i: nat, literal: Text, special: bool)
    requires literal != [] && FoldedAt(t, i, literal)
    requires special <==> SMALL_S in literal || SMALL_K in literal
    requires !Undecided(Utf8(t), literal, special)
    ensures exists o: nat :: SameLetterAt(Utf8(t), o, literal)
  {
    var n, o := |literal|, Offset(Utf8Of, t, i);
    var window := t[i..i + n];
    var plain := LeadingAscii(window);
    assert window[..plain] == t[i..i + plain];
    AsciiRun(t, i, plain);
    AsciiEncodes(t[i..i + plain]);
    if plain == n {
      forall j | 0 <= j < n ensures Lower(Utf8(t)[o..o + n][j]) == Lower(literal[j]) {
        assert FoldsTo(t[i + j], literal[j]) && t[i + j] == window[j];
      }
      assert SameLetterAt(Utf8(t), o, literal);
    } else {
      assert FoldsTo(t[i + plain], literal[plain]) && literal[plain] in literal;
      if plain == 0 {
        SpecialInFront(t, i, literal);
      } else {
        SpecialBehind(t, i, literal, plain);
      }
      assert Undecided(Utf8(t), literal, special);
    }
  }

  lemma {:induction false} LeadingAscii(s: Text) returns (k: nat)
    ensures k <= |s| && AllAscii(s[..k]) && (k < |s| ==> !IsAscii(s[k]))
  {
    k := 0;
    while k < |s| && IsAscii(s[k])
      invariant k <= |s| && AllAscii(s[..k])
    {
      k := k + 1;
    }
  }

  /** A special fold at the front of an occurrence leaves its own bytes in the text. */
  lemma SpecialInFront(t: Text, i: nat, literal: Text)
    requires literal != [] && FoldedAt(t, i, literal) && !IsAscii(t[i])
    ensures (literal[0] == SMALL_S && Contains(Utf8(t), LONG_S_BYTES))
            || (literal[0] == SMALL_K && Contains(Utf8(t), KELVIN_BYTES))
  {
    assert FoldsTo(t[i + 0], literal[0]);
    CharBytes(t, i);
    SpecialBytes(t[i]);
    assert SliceAt(Utf8(t), Offset(Utf8Of, t, i), Utf8Of(t[i]));
  }

  /** The character at `i` is in the bytes at its offset when it is ASCII. */
  lemma AsciiByte(t: Text, i: nat)
    requires i < |t| && IsAscii(t[i])
    ensures Offset(Utf8Of, t, i) < |Utf8(t)| && Utf8(t)[Offset(Utf8Of, t, i)] == t[i]
  {
    CharBytes(t, i);
    var o := Offset(Utf8Of, t, i);
    assert Utf8(t)[o] == Utf8(t)[o..o + 1][0];
  }

  lemma SpecialByte(t: Text, i: nat)
    requires i < |t| && (t[i] == LONG_S || t[i] == KELVIN)
    ensures Offset(Utf8Of, t, i) < |Utf8(t)| && Utf8(t)[Offset(Utf8Of, t, i)] >= 0x80
  {
    CharBytes(t, i);
    SpecialBytes(t[i]);
    var o, code := Offset(Utf8Of, t, i), Utf8Of(t[i]);
    assert Utf8(t)[o] == Utf8(t)[o..o + |code|][0] == code[0];
  }

  /** A special fold behind ASCII characters puts a non-ASCII byte into the candidate. */
  lemma SpecialBehind(t: Text, i: nat, literal: Text, plain: nat)
    requires FoldedAt(t, i, literal) && 0 < plain < |literal|
    requires AllAscii(t[i..i + plain]) && !IsAscii(t[i + plain])
    ensures HidesFold(Utf8(t), Offset(Utf8Of, t, i), literal)
  {
    var n, o, bytes := |literal|, Offset(Utf8Of, t, i), Utf8(t);
    AsciiRun(t, i, plain);
    RoomFor(t, i, n);
    assert IsAscii(t[i]) by { assert t[i..i + plain][0] == t[i]; }
    AsciiByte(t, i);
    assert FoldsTo(t[i + 0], literal[0]);
    assert FoldsTo(t[i + plain], literal[plain]);
    SpecialByte(t, i + plain);
    assert bytes[o..o + n][plain] == bytes[o + plain];
  }

  lemma SpecialBytes(c: scalar)
    requires c == LONG_S || c == KELVIN
    ensures Utf8Of(c) == if c == LONG_S then LONG_S_BYTES else KELVIN_BYTES
  {
  }

  lemma SameLettersAreAscii(bytes: seq<byte>, literal: Text)
    requires SameLetters(bytes, literal)
    requires forall j :: 0 <= j < |literal| ==> IsAscii(literal[j]) && Lower(literal[j]) == literal[j]
    ensures AllAscii(bytes) && forall j :: 0 <= j < |bytes| ==> Lower(bytes[j]) == literal[j]
  {
    forall j | 0 <= j < |bytes| ensures IsAscii(bytes[j]) && Lower(bytes[j]) == literal[j] {
      assert Lower(bytes[j]) == Lower(literal[j]) && IsAscii(literal[j]);
    }
  }

  /** A positive scan is right: bytes that agree up to ASCII case are ASCII characters. */
  lemma ScanIsFolded(t: Text, o: nat, literal: Text) returns (i: nat)
    requires literal != [] && SameLetterAt(Utf8(t), o, literal)
    requires forall j :: 0 <= j < |literal| ==> IsAscii(literal[j]) && Lower(literal[j]) == literal[j]
    ensures FoldedAt(t, i, literal) && AllAscii(t[i..i + |literal|])
  {
    var bytes := Utf8(t)[o..o + |literal|];
    SameLettersAreAscii(bytes, literal);
    var found := AsciiText(bytes);
    i := AsciiFound(t, o, found);
    forall j | 0 <= j < |literal| ensures FoldsTo(t[i + j], literal[j]) {
      assert t[i + j] == t[i..i + |found|][j] == found[j];
    }
  }

  lemma AsciiFound(t: Text, o: nat, found: Text) returns (i: nat)
    requires found != [] && AllAscii(found) && o + |found| <= |Utf8(t)|
    requires forall j :: 0 <= j < |found| ==> Utf8(t)[o..o + |found|][j] == found[j]
    ensures i + |found| <= |t| && t[i..i + |found|] == found
  {
    AsciiEncodes(found);
    assert Utf8(t)[o..o + |found|] == Utf8(found);
    Utf8Synchronises();
    i := StretchOfText(Utf8Of, IsLead, t, o, found);
  }

  /** ASCII bytes as text. */
  function AsciiText(bytes: seq<byte>): (t: Text)
    requires AllAscii(bytes)
    ensures |t| == |bytes| && forall j :: 0 <= j < |t| ==> t[j] == bytes[j]
  {
    if bytes == [] then [] else [bytes[0] as scalar] + AsciiText(bytes[1..])
  }

  // ---------------------------------------------------------------------------------------
  // Matching a text
  // ---------------------------------------------------------------------------------------

  predicate UsablePrefix(prefix: Option<Prefix>) {
    prefix.Some? ==> if prefix.value.Exact? then prefix.value.text != [] else prefix.value.literal != []
  }

  /** `is_match`: a missing literal settles the answer, a present one does when it is everything. */
  function IsMatch(rx: Regex, t: Text): Option<bool>
    requires UsablePrefix(rx.prefix)
  {
    if rx.prefix.None? then rx.native(t)
    else
      var found := match rx.prefix.value
                   case Exact(literal) => Some(Contains(Utf8(t), Utf8(literal)))
                   case AsciiFold(literal, special) => FoldContains(Utf8(t), literal, special);
      if found == Some(false) then Some(false)
      else if found == Some(true) && rx.completeLiteral then Some(true)
      else rx.native(t)
  }

  ghost predicate Holds(t: Text, literal: Text) {
    exists i: nat :: SliceAt(t, i, literal)
  }

  lemma HeldInBytes(t: Text, literal: Text)
    requires literal != []
    ensures Contains(Utf8(t), Utf8(literal)) <==> Holds(t, literal)
  {
    if Contains(Utf8(t), Utf8(literal)) {
      var o :| 0 <= o <= |Utf8(t)| && SliceAt(Utf8(t), o, Utf8(literal));
      Utf8Synchronises();
      var i := StretchOfText(Utf8Of, IsLead, t, o, literal);
      assert SliceAt(t, i, literal);
    }
    if i: nat :| SliceAt(t, i, literal) {
      StretchOfCode(Utf8Of, t, i, literal);
      var o := Offset(Utf8Of, t, i);
      assert 0 <= o <= |Utf8(t)|;
    }
  }

  /** What the literal alone settles, whatever the engine would say: a text without it never matches,
      and one with it does when the literal is everything. */
  lemma ShortcutAnswers(rx: Regex, t: Text)
    requires UsablePrefix(rx.prefix) && rx.prefix.Some?
    ensures rx.prefix.value.Exact? ==>
              var held := Holds(t, rx.prefix.value.text);
              (!held ==> IsMatch(rx, t) == Some(false)) && (held && rx.completeLiteral ==> IsMatch(rx, t) == Some(true))
    ensures rx.prefix.value.AsciiFold? && !Undecided(Utf8(t), rx.prefix.value.literal, rx.prefix.value.specialFolds) ==>
              var held := exists o: nat :: SameLetterAt(Utf8(t), o, rx.prefix.value.literal);
              (!held ==> IsMatch(rx, t) == Some(false)) && (held && rx.completeLiteral ==> IsMatch(rx, t) == Some(true))
  {
    hide Holds, Contains, Undecided, FoldContains, SameLetterAt;
    match rx.prefix.value {
      case Exact(literal) => HeldInBytes(t, literal);
      case AsciiFold(literal, special) => ScanAnswers(Utf8(t), literal, special);
    }
  }

  /** The shortcut through the literal prefix never changes the engine's answer. */
  lemma IsMatchIsNative(rx: Regex, m: Machine, other: Other, t: Text)
    requires Compiled(rx, m, other)
    ensures UsablePrefix(rx.prefix)
    ensures rx.native(t).Some? ==> IsMatch(rx, t) == rx.native(t)
  {
    if rx.native(t).Some? {
      if rx.native(t).value { NativeNeedsLiterals(rx, m, other, t); }
      if rx.completeLiteral { NativeIsLiterals(rx, m, other, t); }
    }
    if rx.prefix.Some? {
      match rx.prefix.value {
        case Exact(literal) =>
          ExactContains(m, t, literal, Contains(Utf8(t), Utf8(literal)));
        case AsciiFold(literal, special) =>
          FoldPrefixFromAnalysis(m, literal, special);
          FoldScanMeans(Utf8(t), literal, special, 0);
          var found := FoldContains(Utf8(t), literal, special);
          if found.Some? {
            FoldContainsIsOccurs(m, t, literal, special, found.value);
          }
      }
    }
  }

  lemma ExactContains(m: Machine, t: Text, literal: Text, found: bool)
    requires WellCompiled(m) && LiteralPrefix(Analyse(m.bc, PREFIX_CAPACITY)).0 == Some(Exact(literal))
    requires found == Contains(Utf8(t), Utf8(literal))
    ensures found <==> Occurs(m, t)
  {
    var a := Analyse(m.bc, PREFIX_CAPACITY);
    if found {
      var o :| 0 <= o <= |Utf8(t)| && SliceAt(Utf8(t), o, Utf8(literal));
      Utf8Synchronises();
      var i := StretchOfText(Utf8Of, IsLead, t, o, literal);
      ExactOccurrence(m, t, literal, i);
    }
    if Occurs(m, t) {
      var i: nat :| MatchesAt(m.fold, t, i, a.points, a.insensitive);
      ExactOccurrence(m, t, literal, i);
      StretchOfCode(Utf8Of, t, i, literal);
    }
  }

  lemma FoldContainsIsOccurs(m: Machine, t: Text, literal: Text, special: bool, found: bool)
    requires FoldPrefix(m, literal) && (special <==> SMALL_S in literal || SMALL_K in literal)
    requires found ==> exists o: nat :: SameLetterAt(Utf8(t), o, literal)
    requires !found ==> !Undecided(Utf8(t), literal, special) && forall o: nat :: !SameLetterAt(Utf8(t), o, literal)
    ensures found <==> Occurs(m, t)
  {
    var a := Analyse(m.bc, PREFIX_CAPACITY);
    if found {
      var o: nat :| SameLetterAt(Utf8(t), o, literal);
      var i := ScanIsFolded(t, o, literal);
      FoldedOccurrence(m, t, literal, i);
      assert MatchesAt(m.fold, t, i, a.points, a.insensitive);
    } else if Occurs(m, t) {
      var i: nat :| MatchesAt(m.fold, t, i, a.points, a.insensitive);
      FoldedOccurrence(m, t, literal, i);
      ScanFindsFolded(t, i, literal, special);
    }
  }

  // ---------------------------------------------------------------------------------------
  // Prefiltering a block of bytes
  // ---------------------------------------------------------------------------------------

  /** One candidate of `ascii_iu_contains`: long s and the Kelvin sign stand for s and k. */
  predicate FoldedBytesAt(bytes: seq<byte>, cursor: nat, literal: Text)
    decreases |literal|
  {
    if literal == [] then true
    else
      var expected := Lower(literal[0]);
      cursor < |bytes| &&
      if IsAscii(bytes[cursor]) && Lower(bytes[cursor]) == expected then FoldedBytesAt(bytes, cursor + 1, literal[1..])
      else if expected == SMALL_S && SliceAt(bytes, cursor, LONG_S_BYTES) then
        FoldedBytesAt(bytes, cursor + 2, literal[1..])
      else if expected == SMALL_K && SliceAt(bytes, cursor, KELVIN_BYTES) then
        FoldedBytesAt(bytes, cursor + 3, literal[1..])
      else false
  }

  ghost predicate MayMatch(prefix: Option<Prefix>, bytes: seq<byte>) {
    match prefix
    case None => true
    case Some(Exact(text)) => Contains(bytes, Utf8(text))
    case Some(AsciiFold(literal, _)) => exists o: nat :: FoldedBytesAt(bytes, o, literal)
  }

  method MayMatchBytes(prefix: Option<Prefix>, bytes: seq<byte>) returns (r: bool)
    requires UsablePrefix(prefix)
    ensures r <==> MayMatch(prefix, bytes)
  {
    if prefix.None? { return true; }
    match prefix.value {
      case Exact(text) => return Contains(bytes, Utf8(text));
      case AsciiFold(literal, _) =>
        var first := Lower(literal[0]);
        for pos := 0 to |bytes|
          invariant forall o: nat :: o < pos ==> !FoldedBytesAt(bytes, o, literal)
        {
          if Lower(bytes[pos]) == first || (first == SMALL_S && bytes[pos] == 0xC5)
             || (first == SMALL_K && bytes[pos] == 0xE2) {
            if FoldedBytesAt(bytes, pos, literal) { return true; }
          } else {
            assert SliceAt(bytes, pos, LONG_S_BYTES) ==> bytes[pos] == bytes[pos..pos + 2][0];
            assert SliceAt(bytes, pos, KELVIN_BYTES) ==> bytes[pos] == bytes[pos..pos + 3][0];
          }
        }
        return false;
    }
  }

  /** A text that folds to the literal, character by character. */
  predicate FoldVariant(variant: Text, literal: Text) {
    |variant| == |literal| && forall j :: 0 <= j < |variant| ==> FoldsTo(variant[j], Lower(literal[j]))
  }

  lemma CandidateCharacter(bytes: seq<byte>, c: nat, literal: Text) returns (first: scalar)
    requires literal != [] && FoldedBytesAt(bytes, c, literal)
    ensures FoldsTo(first, Lower(literal[0])) && SliceAt(bytes, c, Utf8Of(first))
    ensures c + |Utf8Of(first)| <= |bytes| && FoldedBytesAt(bytes, c + |Utf8Of(first)|, literal[1..])
  {
    var expected := Lower(literal[0]);
    first := if IsAscii(bytes[c]) && Lower(bytes[c]) == expected then bytes[c] as scalar
             else if expected == SMALL_S && SliceAt(bytes, c, LONG_S_BYTES) then LONG_S else KELVIN;
    if !IsAscii(first) {
      SpecialBytes(first);
    }
  }

  lemma {:induction false} CandidateIsVariant(bytes: seq<byte>, c: nat, literal: Text) returns (variant: Text)
    requires FoldedBytesAt(bytes, c, literal) && c <= |bytes|
    ensures FoldVariant(variant, literal) && SliceAt(bytes, c, Utf8(variant))
    decreases |literal|
  {
    if literal == [] {
      variant := [];
    } else {
      var first := CandidateCharacter(bytes, c, literal);
      hide FoldedBytesAt, Utf8Of, FoldsTo, Lower, SliceAt;
      var rest := CandidateIsVariant(bytes, c + |Utf8Of(first)|, literal[1..]);
      variant := [first] + rest;
      assert variant[1..] == rest;
      Adjacent(bytes, c, Utf8Of(first), Utf8(rest));
      forall j | 0 <= j < |variant| ensures FoldsTo(variant[j], Lower(literal[j])) {
        if j > 0 { assert FoldsTo(rest[j - 1], Lower(literal[1..][j - 1])); }
      }
    }
  }

  lemma Adjacent(bytes: seq<byte>, c: nat, a: seq<byte>, b: seq<byte>)
    ensures SliceAt(bytes, c, a) && SliceAt(bytes, c + |a|, b) <==> SliceAt(bytes, c, a + b)
  {
    if SliceAt(bytes, c, a + b) {
      assert bytes[c..c + |a|] == (a + b)[..|a|] == a;
      assert bytes[c + |a|..c + |a| + |b|] == (a + b)[|a|..] == b;
    }
  }

  lemma {:induction false} VariantIsCandidate(bytes: seq<byte>, c: nat, literal: Text, variant: Text)
    requires FoldVariant(variant, literal) && SliceAt(bytes, c, Utf8(variant))
    ensures FoldedBytesAt(bytes, c, literal)
    decreases |literal|
  {
    if literal != [] {
      var first := variant[0];
      assert FoldsTo(first, Lower(literal[0]));
      Adjacent(bytes, c, Utf8Of(first), Utf8(variant[1..]));
      forall j | 0 <= j < |variant[1..]| ensures FoldsTo(variant[1..][j], Lower(literal[1..][j])) {
        assert FoldsTo(variant[j + 1], Lower(literal[j + 1]));
      }
      VariantIsCandidate(bytes, c + |Utf8Of(first)|, literal[1..], variant[1..]);
      assert bytes[c] == bytes[c..c + |Utf8Of(first)|][0] == Utf8Of(first)[0];
      if !IsAscii(first) {
        SpecialBytes(first);
      }
    }
  }

  /** Exactly which bytes pass: those that hold the literal, or, for the folded form, the encoding of
      some text that folds to it. */
  lemma MayMatchExactly(prefix: Option<Prefix>, bytes: seq<byte>)
    ensures MayMatch(prefix, bytes) <==>
              match prefix
              case None => true
              case Some(Exact(text)) => exists o: nat :: SliceAt(bytes, o, Utf8(text))
              case Some(AsciiFold(literal, _)) => literal == [] || exists variant: Text, o: nat ::
                                                    FoldVariant(variant, literal) && SliceAt(bytes, o, Utf8(variant))
  {
    if prefix.Some? && prefix.value.Exact? {
      var text := prefix.value.text;
      if o: nat :| SliceAt(bytes, o, Utf8(text)) {
        assert 0 <= o <= |bytes|;
      }
    } else if prefix.Some? && prefix.value.literal != [] {
      var literal := prefix.value.literal;
      if o: nat :| FoldedBytesAt(bytes, o, literal) {
        var variant := CandidateIsVariant(bytes, o, literal);
      }
      if variant: Text, o: nat :| FoldVariant(variant, literal) && SliceAt(bytes, o, Utf8(variant)) {
        VariantIsCandidate(bytes, o, literal, variant);
      }
    } else if prefix.Some? {
      assert FoldedBytesAt(bytes, 0, prefix.value.literal);
    }
  }

  lemma {:induction false} FoldedShowsInBytes(t: Text, i: nat, literal: Text, bytes: seq<byte>, b: nat)
    requires FoldedAt(t, i, literal) && SliceAt(bytes, b, Utf8(t))
    requires forall j :: 0 <= j < |literal| ==> Lower(literal[j]) == literal[j]
    ensures FoldedBytesAt(bytes, b + Offset(Utf8Of, t, i), literal)
    decreases |literal|
  {
    if literal != [] {
      assert FoldsTo(t[i + 0], literal[0]);
      forall j | 0 <= j < |literal[1..]| ensures FoldsTo(t[i + 1 + j], literal[1..][j]) {
        assert FoldsTo(t[i + (j + 1)], literal[j + 1]);
      }
      FoldedShowsInBytes(t, i + 1, literal[1..], bytes, b);
      CharBytes(t, i);
      var o, code := Offset(Utf8Of, t, i), Utf8Of(t[i]);
      SliceOfSlice(bytes, b, Utf8(t), o, code);
      assert bytes[b + o] == bytes[b + o..b + o + |code|][0] == code[0];
      if !IsAscii(t[i]) {
        SpecialBytes(t[i]);
      }
    }
  }

  /** The prefilter has no false negatives: a block holding a matching text is never skipped. */
  lemma BlockIsKept(rx: Regex, m: Machine, other: Other, t: Text, bytes: seq<byte>, b: nat)
    requires Compiled(rx, m, other) && rx.native(t) == Some(true)
    requires SliceAt(bytes, b, Utf8(t))
    ensures MayMatch(rx.prefix, bytes)
  {
    if rx.prefix.Some? {
      NativeNeedsLiterals(rx, m, other, t);
      var a := Analyse(m.bc, PREFIX_CAPACITY);
      var i: nat :| MatchesAt(m.fold, t, i, a.points, a.insensitive);
      match rx.prefix.value {
        case Exact(literal) =>
          ExactOccurrence(m, t, literal, i);
          StretchOfCode(Utf8Of, t, i, literal);
          SliceOfSlice(bytes, b, Utf8(t), Offset(Utf8Of, t, i), Utf8(literal));
        case AsciiFold(literal, special) =>
          FoldPrefixFromAnalysis(m, literal, special);
          FoldedOccurrence(m, t, literal, i);
          FoldedShowsInBytes(t, i, literal, bytes, b);
      }
    }
  }

  /** Bytes that agree with an ASCII literal up to case pass the candidate test. */
  lemma {:induction false} SameLettersAreKept(bytes: seq<byte>, c: nat, literal: Text)
    requires SameLetterAt(bytes, c, literal)
    requires forall j :: 0 <= j < |literal| ==> IsAscii(literal[j])
    ensures FoldedBytesAt(bytes, c, literal)
    decreases |literal|
  {
    if literal != [] {
      var window := bytes[c..c + |literal|];
      assert Lower(window[0]) == Lower(literal[0]) && window[0] == bytes[c];
      assert window[1..] == bytes[c + 1..c + 1 + |literal[1..]|];
      forall j | 0 <= j < |literal[1..]| ensures Lower(window[1..][j]) == Lower(literal[1..][j]) {
        assert Lower(window[j + 1]) == Lower(literal[j + 1]);
      }
      SameLettersAreKept(bytes, c + 1, literal[1..]);
    }
  }

  lemma FoldScanIsKept(text: seq<byte>, literal: Text, special: bool, bytes: seq<byte>, b: nat)
    requires literal != [] && forall j :: 0 <= j < |literal| ==> IsAscii(literal[j])
    requires FoldContains(text, literal, special) == Some(true) && SliceAt(bytes, b, text)
    ensures exists o: nat :: FoldedBytesAt(bytes, o, literal)
  {
    FoldScanMeans(text, literal, special, 0);
    var o: nat :| SameLetterAt(text, o, literal);
    SliceOfSlice(bytes, b, text, o, text[o..o + |literal|]);
    SameLettersAreKept(bytes, b + o, literal);
  }

  /** Nor does it reject a block with a text that the shortcut alone accepts. */
  lemma AcceptedIsKept(rx: Regex, m: Machine, other: Other, t: Text, bytes: seq<byte>, b: nat)
    requires Compiled(rx, m, other) && UsablePrefix(rx.prefix) && IsMatch(rx, t) == Some(true)
    requires SliceAt(bytes, b, Utf8(t))
    ensures MayMatch(rx.prefix, bytes)
  {
    if rx.native(t) == Some(true) {
      BlockIsKept(rx, m, other, t, bytes, b);
    } else if rx.prefix.Some? {
      match rx.prefix.value {
        case Exact(literal) =>
          var o :| 0 <= o <= |Utf8(t)| && SliceAt(Utf8(t), o, Utf8(literal));
          SliceOfSlice(bytes, b, Utf8(t), o, Utf8(literal));
        case AsciiFold(literal, special) =>
          FoldPrefixFromAnalysis(m, literal, special);
          FoldScanIsKept(Utf8(t), literal, special, bytes, b);
      }
    }
  }

  /** What a search needs of an expression: the shortcut agrees with the engine, and no block that
      holds an accepted text is rejected. */
  ghost predicate Sound(rx: Regex) {
    && UsablePrefix(rx.prefix)
    && (forall t: Text :: rx.native(t).Some? ==> IsMatch(rx, t) == rx.native(t))
    && (forall t: Text, bytes: seq<byte>, b: nat ::
          IsMatch(rx, t) == Some(true) && SliceAt(bytes, b, Utf8(t)) ==> MayMatch(rx.prefix, bytes))
  }

  /** Every expression the bytecode analysis has looked at is sound. */
  lemma CompiledIsSound(rx: Regex, m: Machine, other: Other)
    requires Compiled(rx, m, other)
    ensures Sound(rx)
  {
    IsMatchIsNative(rx, m, other, []);
    forall t: Text | rx.native(t).Some? ensures IsMatch(rx, t) == rx.native(t) {
      IsMatchIsNative(rx, m, other, t);
    }
    forall t: Text, bytes: seq<byte>, b: nat | IsMatch(rx, t) == Some(true) && SliceAt(bytes, b, Utf8(t))
      ensures MayMatch(rx.prefix, bytes)
    {
      AcceptedIsKept(rx, m, other, t, bytes, b);
    }
  }
}
