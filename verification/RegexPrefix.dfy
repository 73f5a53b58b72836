/** The mandatory literal prefix claimed from compiled regular-expression bytecode, and the
    bytecode machine the claim is about. */
module RegexPrefix {
  import opened Prelude

  type byte = b: int | 0 <= b < 256

  // Opcode numbers of the pinned bytecode format.
  const OP_CHAR := 1
  const OP_CHAR_I := 2
  const OP_CHAR32 := 3
  const OP_CHAR32_I := 4
  const OP_ANY := 6
  const OP_GOTO := 13
  const OP_SPLIT_GOTO_FIRST := 14
  const OP_SPLIT_NEXT_FIRST := 15
  const OP_MATCH := 16
  const OP_SAVE_START := 19
  const OP_SAVE_END := 20

  /** Where the code starts behind the header, and where it goes on behind the search loop. */
  const ENTRY := 8
  const BODY := 19
  const LINEAR := 21

  function U16(bc: seq<byte>, p: nat): nat
    requires p + 2 <= |bc|
  {
    bc[p] as int + 0x100 * (bc[p + 1] as int)
  }

  function U32(bc: seq<byte>, p: nat): nat
    requires p + 4 <= |bc|
  {
    bc[p] as int + 0x100 * (bc[p + 1] as int) + 0x1_0000 * (bc[p + 2] as int) + 0x100_0000 * (bc[p + 3] as int)
  }

  function S32(bc: seq<byte>, p: nat): int
    requires p + 4 <= |bc|
  {
    if U32(bc, p) < 0x8000_0000 then U32(bc, p) else U32(bc, p) - 0x1_0000_0000
  }

  predicate IsChar(op: int) {
    op == OP_CHAR || op == OP_CHAR_I || op == OP_CHAR32 || op == OP_CHAR32_I
  }

  predicate IsInsensitive(op: int) {
    op == OP_CHAR_I || op == OP_CHAR32_I
  }

  predicate IsSave(op: int) {
    op == OP_SAVE_START || op == OP_SAVE_END
  }

  function CharSize(op: int): nat
    requires IsChar(op)
  {
    if op == OP_CHAR || op == OP_CHAR_I then 3 else 5
  }

  function Operand(bc: seq<byte>, p: nat): nat
    requires p < |bc| && IsChar(bc[p]) && p + CharSize(bc[p]) <= |bc|
  {
    if CharSize(bc[p]) == 3 then U16(bc, p + 1) else U32(bc, p + 1)
  }

  // ---------------------------------------------------------------------------------------
  // The analysis
  // ---------------------------------------------------------------------------------------

  datatype Analysis = Analysis(points: seq<nat>, insensitive: bool, complete: bool)

  /** The loop that makes a program search every position: split +6; any; goto -11; save_start 0. */
  predicate HasSearchLoop(bc: seq<byte>) {
    && LINEAR <= |bc|
    && bc[8] == OP_SPLIT_GOTO_FIRST && U32(bc, 9) == 6
    && bc[13] == OP_ANY
    && bc[14] == OP_GOTO && S32(bc, 15) == -11
    && bc[19] == OP_SAVE_START && bc[20] == 0
  }

  /** The instruction at `p` is one more literal of the prefix under construction. */
  predicate Extends(bc: seq<byte>, p: nat, n: nat, mode: Option<bool>, capacity: nat) {
    && p < |bc| && IsChar(bc[p]) && p + CharSize(bc[p]) <= |bc| && n != capacity
    && (mode.None? || mode.value == IsInsensitive(bc[p]))
  }

  function Scan(bc: seq<byte>, p: nat, points: seq<nat>, mode: Option<bool>, capacity: nat): Analysis
    decreases |bc| - p
  {
    if p >= |bc| then Analysis(points, mode == Some(true), false)
    else if IsSave(bc[p]) then
      if p + 2 > |bc| then Analysis(points, mode == Some(true), false)
      else Scan(bc, p + 2, points, mode, capacity)
    else if bc[p] == OP_MATCH then Analysis(points, mode == Some(true), true)
    else if Extends(bc, p, |points|, mode, capacity) then
      Scan(bc, p + CharSize(bc[p]), points + [Operand(bc, p)], Some(IsInsensitive(bc[p])), capacity)
    else Analysis(points, mode == Some(true), false)
  }

  function Analyse(bc: seq<byte>, capacity: nat): Analysis {
    if HasSearchLoop(bc) then Scan(bc, LINEAR, [], None, capacity) else Analysis([], false, false)
  }

  /** `prts_re_prefix`: fills `prefix` from the front and touches nothing behind what it returns. */
  method Prefix(bc: seq<byte>, prefix: array<nat>) returns (n: nat, insensitive: bool, complete: bool)
    modifies prefix
    ensures n <= prefix.Length
    ensures Analyse(bc, prefix.Length) == Analysis(prefix[..n], insensitive, complete)
    ensures prefix[n..] == old(prefix[n..])
  {
    n, insensitive, complete := 0, false, false;
    var p := ENTRY;
    if |bc| < 21 || bc[p] != OP_SPLIT_GOTO_FIRST || U32(bc, p + 1) != 6 || bc[p + 5] != OP_ANY
       || bc[p + 6] != OP_GOTO || S32(bc, p + 7) != -11 {
      return;
    }
    p := p + 11;
    if bc[p] != OP_SAVE_START || bc[p + 1] != 0 {
      return;
    }
    p := p + 2;
    var mode: Option<bool> := None;
    while p < |bc|
      invariant n <= prefix.Length
      invariant !complete
      invariant Analyse(bc, prefix.Length) == Scan(bc, p, prefix[..n], mode, prefix.Length)
      invariant forall k :: n <= k < prefix.Length ==> prefix[k] == old(prefix[k])
      decreases |bc| - p
    {
      var op := bc[p];
      if IsSave(op) {
        if p + 2 > |bc| { break; }
        p := p + 2;
        continue;
      }
      if op == OP_MATCH {
        complete := true;
        break;
      }
      if !IsChar(op) || p + CharSize(op) > |bc| || n == prefix.Length
         || (mode.Some? && mode.value != IsInsensitive(op)) {
        break;
      }
      ghost var before := prefix[..n];
      mode := Some(IsInsensitive(op));
      prefix[n] := Operand(bc, p);
      n := n + 1;
      assert prefix[..n] == before + [Operand(bc, p)];
      p := p + CharSize(op);
    }
    insensitive := mode == Some(true);
  }

  // ---------------------------------------------------------------------------------------
  // Reading UTF-16 text
  // ---------------------------------------------------------------------------------------

  predicate IsHigh(u: nat) { 0xD800 <= u <= 0xDBFF }
  predicate IsLow(u: nat) { 0xDC00 <= u <= 0xDFFF }

  /** A surrogate pair is one character in Unicode mode; a lone surrogate stands for itself. */
  function CharAt(text: seq<nat>, q: nat, unicode: bool): nat
    requires q < |text|
  {
    if unicode && IsHigh(text[q]) && q + 1 < |text| && IsLow(text[q + 1])
    then 0x1_0000 + 0x400 * (text[q] - 0xD800) + (text[q + 1] - 0xDC00)
    else text[q]
  }

  function After(text: seq<nat>, q: nat, unicode: bool): (r: nat)
    requires q < |text|
    ensures q < r <= |text|
  {
    if unicode && IsHigh(text[q]) && q + 1 < |text| && IsLow(text[q + 1]) then q + 2 else q + 1
  }

  // ---------------------------------------------------------------------------------------
  // The nondeterministic machine
  // ---------------------------------------------------------------------------------------

  datatype Machine = Machine(bc: seq<byte>, unicode: bool, captures: nat, fold: nat -> nat)

  datatype Config = Config(pc: int, pos: nat)

  /** Every opcode without a meaning here may do anything at all. */
  type Other = (Config, Config) -> bool

  predicate CharMatches(m: Machine, text: seq<nat>, q: nat, point: nat, insensitive: bool) {
    q < |text| &&
    (if insensitive then m.fold(CharAt(text, q, m.unicode)) else CharAt(text, q, m.unicode)) == point
  }

  ghost predicate Step(m: Machine, other: Other, text: seq<nat>, a: Config, b: Config) {
    0 <= a.pc < |m.bc| &&
    var op := m.bc[a.pc];
    if IsChar(op) then
      && a.pc + CharSize(op) <= |m.bc|
      && CharMatches(m, text, a.pos, Operand(m.bc, a.pc), IsInsensitive(op))
      && b == Config(a.pc + CharSize(op), After(text, a.pos, m.unicode))
    else if op == OP_ANY then
      a.pos < |text| && b == Config(a.pc + 1, After(text, a.pos, m.unicode))
    else if op == OP_GOTO then
      a.pc + 5 <= |m.bc| && b == Config(a.pc + 5 + S32(m.bc, a.pc + 1), a.pos)
    else if op == OP_SPLIT_GOTO_FIRST || op == OP_SPLIT_NEXT_FIRST then
      && a.pc + 5 <= |m.bc|
      && (b == Config(a.pc + 5, a.pos) || b == Config(a.pc + 5 + S32(m.bc, a.pc + 1), a.pos))
    else if IsSave(op) then
      a.pc + 2 <= |m.bc| && m.bc[a.pc + 1] < m.captures && b == Config(a.pc + 2, a.pos)
    else if op == OP_MATCH then false
    else other(a, b)
  }

  /** A run that ends on the match instruction. */
  ghost predicate Accepting(m: Machine, other: Other, text: seq<nat>, run: seq<Config>) {
    && run != []
    && (forall i :: 0 <= i < |run| - 1 ==> Step(m, other, text, run[i], run[i + 1]))
    && 0 <= run[|run| - 1].pc < |m.bc| && m.bc[run[|run| - 1].pc] == OP_MATCH
  }

  lemma AcceptingTail(m: Machine, other: Other, text: seq<nat>, run: seq<Config>)
    requires Accepting(m, other, text, run) && |run| > 1
    ensures Step(m, other, text, run[0], run[1]) && Accepting(m, other, text, run[1..])
  {
    forall i | 0 <= i < |run[1..]| - 1 ensures Step(m, other, text, run[1..][i], run[1..][i + 1]) {
      assert Step(m, other, text, run[i + 1], run[i + 2]);
    }
  }

  /** The end of the text stretch matched by `points` from `q`, if they match there. */
  function Consumes(m: Machine, text: seq<nat>, q: nat, points: seq<nat>, insensitive: bool): Option<nat>
    decreases |points|
  {
    if points == [] then Some(q)
    else if CharMatches(m, text, q, points[0], insensitive)
    then Consumes(m, text, After(text, q, m.unicode), points[1..], insensitive)
    else None
  }

  /** `q` is one of the character positions met when reading on from `from`. */
  predicate Reaches(m: Machine, text: seq<nat>, from: nat, q: nat)
    decreases |text| - from
  {
    from == q || (from < |text| && Reaches(m, text, After(text, from, m.unicode), q))
  }

  /** The analysis only appends to what it has, and fixes the case mode with the first literal. */
  lemma {:induction false} ScanExtends(bc: seq<byte>, p: nat, points: seq<nat>, mode: Option<bool>, capacity: nat)
    ensures var r := Scan(bc, p, points, mode, capacity);
            && |points| <= |r.points| && r.points[..|points|] == points
            && (mode.Some? ==> r.insensitive == mode.value)
    decreases |bc| - p
  {
    if p < |bc| {
      if IsSave(bc[p]) {
        if p + 2 <= |bc| { ScanExtends(bc, p + 2, points, mode, capacity); }
      } else if bc[p] != OP_MATCH && Extends(bc, p, |points|, mode, capacity) {
        var longer := points + [Operand(bc, p)];
        ScanExtends(bc, p + CharSize(bc[p]), longer, Some(IsInsensitive(bc[p])), capacity);
        var r := Scan(bc, p + CharSize(bc[p]), longer, Some(IsInsensitive(bc[p])), capacity);
        assert r.points[..|points|] == r.points[..|longer|][..|points|];
      }
    }
  }

  /** The claims still to come, split at one more literal. */
  lemma ScanRest(bc: seq<byte>, p: nat, points: seq<nat>, mode: Option<bool>, capacity: nat)
    requires Extends(bc, p, |points|, mode, capacity)
    ensures var longer := points + [Operand(bc, p)];
            var r := Scan(bc, p + CharSize(bc[p]), longer, Some(IsInsensitive(bc[p])), capacity);
            && r == Scan(bc, p, points, mode, capacity) && r.insensitive == IsInsensitive(bc[p])
            && |longer| <= |r.points|
            && r.points[|points|] == Operand(bc, p) && r.points[|points|..][1..] == r.points[|longer|..]
  {
    var longer := points + [Operand(bc, p)];
    ScanExtends(bc, p + CharSize(bc[p]), longer, Some(IsInsensitive(bc[p])), capacity);
    var r := Scan(bc, p + CharSize(bc[p]), longer, Some(IsInsensitive(bc[p])), capacity);
    assert r.points[|points|] == r.points[..|longer|][|points|];
  }

  /** Every accepting run through the linear part consumes the literals still to be claimed. */
  lemma {:induction false} LinearIsMandatory(m: Machine, other: Other, text: seq<nat>, run: seq<Config>,
                                             p: nat, points: seq<nat>, mode: Option<bool>, capacity: nat)
    requires Accepting(m, other, text, run) && run[0].pc == p
    ensures var r := Scan(m.bc, p, points, mode, capacity);
            |points| <= |r.points| && Consumes(m, text, run[0].pos, r.points[|points|..], r.insensitive).Some?
    decreases |m.bc| - p
  {
    var bc := m.bc;
    ScanExtends(bc, p, points, mode, capacity);
    if IsSave(bc[p]) {
      AcceptingTail(m, other, text, run);
      LinearIsMandatory(m, other, text, run[1..], p + 2, points, mode, capacity);
    } else if bc[p] != OP_MATCH && Extends(bc, p, |points|, mode, capacity) {
      AcceptingTail(m, other, text, run);
      var longer, next := points + [Operand(bc, p)], p + CharSize(bc[p]);
      LinearIsMandatory(m, other, text, run[1..], next, longer, Some(IsInsensitive(bc[p])), capacity);
      ScanRest(bc, p, points, mode, capacity);
    } else {
      assert Scan(bc, p, points, mode, capacity).points[|points|..] == [];
    }
  }

  /** An accepting run that starts in the search loop leaves it at some later character. */
  lemma {:induction false} LoopIsLeft(m: Machine, other: Other, text: seq<nat>, run: seq<Config>)
    returns (i: nat)
    requires HasSearchLoop(m.bc) && Accepting(m, other, text, run) && run[0].pc == ENTRY
    ensures i < |run| && run[i].pc == BODY && Reaches(m, text, run[0].pos, run[i].pos)
    ensures Accepting(m, other, text, run[i..])
    decreases |run|
  {
    AcceptingTail(m, other, text, run);
    if run[1].pc == BODY {
      i := 1;
    } else {
      assert run[1] == Config(13, run[0].pos);
      AcceptingTail(m, other, text, run[1..]);
      assert run[1..][1..] == run[2..];
      AcceptingTail(m, other, text, run[2..]);
      assert run[2..][1..] == run[3..];
      assert run[3] == Config(ENTRY, After(text, run[0].pos, m.unicode));
      var j := LoopIsLeft(m, other, text, run[3..]);
      i := j + 3;
      assert run[3..][j..] == run[i..];
    }
  }

  /** The claim: whatever follows the linear part, every accepting run consumes the returned
      literals in order, starting at a character position at or behind its start. */
  lemma PrefixIsMandatory(m: Machine, other: Other, text: seq<nat>, run: seq<Config>, capacity: nat)
    returns (q: nat)
    requires Accepting(m, other, text, run) && run[0].pc == ENTRY
    ensures Reaches(m, text, run[0].pos, q)
    ensures var r := Analyse(m.bc, capacity); Consumes(m, text, q, r.points, r.insensitive).Some?
  {
    if HasSearchLoop(m.bc) {
      var i := LoopIsLeft(m, other, text, run);
      AcceptingTail(m, other, text, run[i..]);
      LinearIsMandatory(m, other, text, run[i..][1..], LINEAR, [], None, capacity);
      var r := Analyse(m.bc, capacity);
      assert r.points[0..] == r.points;
      q := run[i].pos;
    } else {
      q := run[0].pos;
    }
  }

  // ---------------------------------------------------------------------------------------
  // What the analysis finds
  // ---------------------------------------------------------------------------------------

  /** An instruction of a linear part: a character of 16 or 32 bits, low byte first, or the start or
      end of a group. */
  datatype Part = Narrow(b0: byte, b1: byte) | Wide(b0: byte, b1: byte, b2: byte, b3: byte) | Save(end: bool, group: byte)

  function CodeOf(part: Part, insensitive: bool): seq<byte> {
    match part
    case Save(end, group) => [if end then 20 else 19, group]
    case Narrow(b0, b1) => [if insensitive then 2 else 1, b0, b1]
    case Wide(b0, b1, b2, b3) => [if insensitive then 4 else 3, b0, b1, b2, b3]
  }

  function PointOf(part: Part): nat
    requires !part.Save?
  {
    match part
    case Narrow(b0, b1) => b0 as int + 0x100 * (b1 as int)
    case Wide(b0, b1, b2, b3) =>
      b0 as int + 0x100 * (b1 as int) + 0x1_0000 * (b2 as int) + 0x100_0000 * (b3 as int)
  }

  function Code(parts: seq<Part>, insensitive: bool): seq<byte> {
    if parts == [] then [] else CodeOf(parts[0], insensitive) + Code(parts[1..], insensitive)
  }

  function Literals(parts: seq<Part>): seq<nat> {
    if parts == [] then []
    else (if parts[0].Save? then [] else [PointOf(parts[0])]) + Literals(parts[1..])
  }

  /** split_goto_first 6; any; goto -11; save_start 0. */
  const LOOP_CODE: seq<byte> := [14, 6, 0, 0, 0, 6, 13, 0xF5, 0xFF, 0xFF, 0xFF, 19, 0]

  /** What ends a linear part with these literals: the end of the code, an instruction that is neither
      a character, a save nor the match, one that is cut off, a character of the other case mode, or,
      with the buffer full, any character. */
  predicate Ends(rest: seq<byte>, literals: seq<nat>, insensitive: bool, capacity: nat) {
    || rest == []
    || rest[0] !in {1, 2, 3, 4, 16, 19, 20}
    || (rest[0] in {19, 20} && |rest| < 2)
    || (rest[0] in {1, 2} && |rest| < 3) || (rest[0] in {3, 4} && |rest| < 5)
    || (rest[0] in {1, 2, 3, 4} && |literals| == capacity)
    || (rest[0] in {1, 2, 3, 4} && literals != [] && (rest[0] in {2, 4}) != insensitive)
  }

  lemma CodeIsRead(before: seq<byte>, part: Part, insensitive: bool, rest: seq<byte>)
    ensures var bc, p := before + (CodeOf(part, insensitive) + rest), |before|;
            && |bc| == p + |CodeOf(part, insensitive)| + |rest|
            && (part.Save? ==> IsSave(bc[p]) && |CodeOf(part, insensitive)| == 2)
            && (!part.Save? ==>
                  && IsChar(bc[p]) && CharSize(bc[p]) == |CodeOf(part, insensitive)|
                  && IsInsensitive(bc[p]) == insensitive && Operand(bc, p) == PointOf(part))
  {
    var bc, p, code := before + (CodeOf(part, insensitive) + rest), |before|, CodeOf(part, insensitive);
    assert forall i :: 0 <= i < |code| ==> bc[p + i] == code[i];
    assert bc[p + 0] == code[0] && bc[p + 1] == code[1];
    if !part.Save? {
      assert bc[p + 2] == code[2];
      if part.Wide? {
        assert bc[p + 3] == code[3] && bc[p + 4] == code[4];
      }
    }
  }

  /** The literals found in front of `rest`, up to the capacity, with their case mode; complete exactly
      when a match follows. */
  ghost predicate Finds(r: Analysis, found: seq<nat>, insensitive: bool, rest: seq<byte>, capacity: nat) {
    && (|found| > capacity ==> r == Analysis(found[..capacity], insensitive && capacity > 0, false))
    && (|found| <= capacity && rest != [] && rest[0] == 16 ==> r == Analysis(found, insensitive && found != [], true))
    && (|found| <= capacity && Ends(rest, found, insensitive, capacity) ==>
          r == Analysis(found, insensitive && found != [], false))
  }

  function ModeOf(points: seq<nat>, insensitive: bool): Option<bool> {
    if points == [] then None else Some(insensitive)
  }

  lemma FindsNoMore(before: seq<byte>, insensitive: bool, rest: seq<byte>, points: seq<nat>, capacity: nat)
    requires |points| <= capacity
    ensures Finds(Scan(before + rest, |before|, points, ModeOf(points, insensitive), capacity), points, insensitive, rest, capacity)
  {
    if rest != [] {
      assert (before + rest)[|before|] == rest[0];
    }
  }

  /** One more instruction: a save is passed, a literal is taken while there is room. */
  lemma FindsPart(before: seq<byte>, part: Part, insensitive: bool, later: seq<byte>, points: seq<nat>, capacity: nat)
    requires |points| <= capacity
    ensures var code := CodeOf(part, insensitive);
            var bc := (before + code) + later;
            Scan(bc, |before|, points, ModeOf(points, insensitive), capacity) ==
            if part.Save? then Scan(bc, |before + code|, points, ModeOf(points, insensitive), capacity)
            else if |points| < capacity then
              Scan(bc, |before + code|, points + [PointOf(part)], Some(insensitive), capacity)
            else Analysis(points, insensitive && points != [], false)
  {
    CodeIsRead(before, part, insensitive, later);
    assert before + (CodeOf(part, insensitive) + later) == (before + CodeOf(part, insensitive)) + later;
  }

  lemma Regroup<T>(a: seq<T>, b: seq<T>, c: seq<T>, d: seq<T>)
    ensures a + ((b + c) + d) == (a + b) + (c + d)
    ensures c + [] == c && (b + c) + [] == b + c
  {
  }

  lemma FindsFull(points: seq<nat>, point: nat, more: seq<nat>, insensitive: bool, rest: seq<byte>, capacity: nat)
    requires |points| == capacity
    ensures Finds(Analysis(points, insensitive && points != [], false), points + ([point] + more), insensitive, rest, capacity)
  {
    assert (points + ([point] + more))[..capacity] == points;
  }

  lemma {:induction false} ScanFinds(before: seq<byte>, parts: seq<Part>, insensitive: bool, rest: seq<byte>,
                                     points: seq<nat>, capacity: nat)
    requires |points| <= capacity
    ensures Finds(Scan(before + (Code(parts, insensitive) + rest), |before|, points, ModeOf(points, insensitive), capacity),
                  points + Literals(parts), insensitive, rest, capacity)
    decreases |parts|
  {
    if parts == [] {
      assert points + Literals(parts) == points && Code(parts, insensitive) + rest == rest;
      FindsNoMore(before, insensitive, rest, points, capacity);
    } else {
      var part, later := parts[0], Code(parts[1..], insensitive) + rest;
      var code := CodeOf(part, insensitive);
      FindsPart(before, part, insensitive, later, points, capacity);
      Regroup(before, code, Code(parts[1..], insensitive), rest);
      hide Scan, Ends, CodeOf, Code, Finds;
      if part.Save? {
        ScanFinds(before + code, parts[1..], insensitive, rest, points, capacity);
        assert [] + Literals(parts[1..]) == Literals(parts[1..]);
      } else {
        Regroup(points, [PointOf(part)], Literals(parts[1..]), []);
        if |points| < capacity {
          ScanFinds(before + code, parts[1..], insensitive, rest, points + [PointOf(part)], capacity);
        } else {
          FindsFull(points, PointOf(part), Literals(parts[1..]), insensitive, rest, capacity);
        }
      }
    }
  }

  /** Behind the search loop the analysis finds exactly the literals of the linear part. */
  lemma AnalysisFinds(header: seq<byte>, parts: seq<Part>, insensitive: bool, rest: seq<byte>, capacity: nat)
    requires |header| == 8
    ensures Finds(Analyse(header + LOOP_CODE + (Code(parts, insensitive) + rest), capacity), Literals(parts), insensitive,
                  rest, capacity)
  {
    var before := header + LOOP_CODE;
    var bc := before + (Code(parts, insensitive) + rest);
    assert bc[8..21] == LOOP_CODE;
    LoopIsCode(bc);
    ScanFinds(before, parts, insensitive, rest, [], capacity);
    assert [] + Literals(parts) == Literals(parts);
  }

  /** The instruction at a place where the analysis goes on. */
  function PartAt(bc: seq<byte>, p: nat): (part: Part)
    requires p < |bc| && p + 2 <= |bc| && (IsSave(bc[p]) || (IsChar(bc[p]) && p + CharSize(bc[p]) <= |bc|))
    ensures var size := if IsSave(bc[p]) then 2 else CharSize(bc[p]);
            && CodeOf(part, IsInsensitive(bc[p])) == bc[p..p + size]
            && (part.Save? ==> CodeOf(part, true) == CodeOf(part, false) == bc[p..p + size])
            && (part.Save? <==> IsSave(bc[p])) && (!part.Save? ==> PointOf(part) == Operand(bc, p))
  {
    if IsSave(bc[p]) then Save(bc[p] == OP_SAVE_END, bc[p + 1])
    else if CharSize(bc[p]) == 3 then Narrow(bc[p + 1], bc[p + 2])
    else Wide(bc[p + 1], bc[p + 2], bc[p + 3], bc[p + 4])
  }

  lemma CodeStep(bc: seq<byte>, p: nat, next: nat, part: Part, parts: seq<Part>, rest: seq<byte>, insensitive: bool)
    requires p <= next <= |bc| && bc[p..next] == CodeOf(part, insensitive) && bc[next..] == Code(parts, insensitive) + rest
    ensures bc[p..] == Code([part] + parts, insensitive) + rest
    ensures Literals([part] + parts) == (if part.Save? then [] else [PointOf(part)]) + Literals(parts)
  {
    assert ([part] + parts)[1..] == parts;
    assert bc[p..] == bc[p..next] + bc[next..];
    assert CodeOf(part, insensitive) + (Code(parts, insensitive) + rest) == (CodeOf(part, insensitive) + Code(parts, insensitive)) + rest;
  }

  /** The code is a linear part with just the literals found, and what ends it. */
  ghost predicate Encoded(code: seq<byte>, r: Analysis, points: seq<nat>, capacity: nat, parts: seq<Part>, rest: seq<byte>) {
    && code == Code(parts, r.insensitive) + rest && r.points == points + Literals(parts)
    && (r.complete <==> rest != [] && rest[0] == 16)
    && (!r.complete ==> Ends(rest, r.points, r.insensitive, capacity))
  }

  lemma EncodedStep(bc: seq<byte>, p: nat, next: nat, r: Analysis, points: seq<nat>, capacity: nat, part: Part,
                    parts: seq<Part>, rest: seq<byte>)
    requires p <= next <= |bc| && bc[p..next] == CodeOf(part, r.insensitive)
    requires Encoded(bc[next..], r, points + (if part.Save? then [] else [PointOf(part)]), capacity, parts, rest)
    ensures Encoded(bc[p..], r, points, capacity, [part] + parts, rest)
  {
    CodeStep(bc, p, next, part, parts, rest, r.insensitive);
    hide Ends, Code, CodeOf, Literals;
    Regroup(points, if part.Save? then [] else [PointOf(part)], Literals(parts), []);
  }

  lemma {:induction false} ScanIsEncoded(bc: seq<byte>, p: nat, points: seq<nat>, mode: Option<bool>, capacity: nat)
    returns (parts: seq<Part>, rest: seq<byte>)
    requires p <= |bc| && |points| <= capacity && (mode.Some? <==> points != [])
    ensures Encoded(bc[p..], Scan(bc, p, points, mode, capacity), points, capacity, parts, rest)
    decreases |bc| - p
  {
    hide Encoded, CodeOf;
    var r := Scan(bc, p, points, mode, capacity);
    if p < |bc| && IsSave(bc[p]) && p + 2 <= |bc| {
      parts, rest := ScanIsEncoded(bc, p + 2, points, mode, capacity);
      assert points + [] == points;
      var part := PartAt(bc, p);
      EncodedStep(bc, p, p + 2, r, points, capacity, part, parts, rest);
      parts := [part] + parts;
    } else if p < |bc| && !IsSave(bc[p]) && bc[p] != OP_MATCH && Extends(bc, p, |points|, mode, capacity) {
      var c, next := Operand(bc, p), p + CharSize(bc[p]);
      parts, rest := ScanIsEncoded(bc, next, points + [c], Some(IsInsensitive(bc[p])), capacity);
      ScanRest(bc, p, points, mode, capacity);
      var part := PartAt(bc, p);
      EncodedStep(bc, p, next, r, points, capacity, part, parts, rest);
      parts := [part] + parts;
    } else {
      parts, rest := [], bc[p..];
      EndsHere(bc, p, points, mode, capacity);
    }
  }

  lemma EndsHere(bc: seq<byte>, p: nat, points: seq<nat>, mode: Option<bool>, capacity: nat)
    requires p <= |bc| && |points| <= capacity && (mode.Some? <==> points != [])
    requires p == |bc| || (IsSave(bc[p]) && p + 2 > |bc|)
             || (!IsSave(bc[p]) && (bc[p] == OP_MATCH || !Extends(bc, p, |points|, mode, capacity)))
    ensures Encoded(bc[p..], Scan(bc, p, points, mode, capacity), points, capacity, [], bc[p..])
  {
    assert [] + bc[p..] == bc[p..] && points + [] == points;
    if p < |bc| {
      assert bc[p..][0] == bc[p];
    }
  }

  /** Nothing else is claimed: whatever is found stands in the code in this form. */
  lemma AnalysisIsEncoded(bc: seq<byte>, capacity: nat) returns (parts: seq<Part>, rest: seq<byte>)
    ensures if |bc| >= 21 && bc[8..21] == LOOP_CODE then Encoded(bc[21..], Analyse(bc, capacity), [], capacity, parts, rest)
            else Analyse(bc, capacity) == Analysis([], false, false)
  {
    parts, rest := [], [];
    LoopIsCode(bc);
    if HasSearchLoop(bc) {
      parts, rest := ScanIsEncoded(bc, LINEAR, [], None, capacity);
    }
  }

  lemma FourBytes(b0: byte, b1: byte, b2: byte, b3: byte)
    ensures var n := b0 as int + 0x100 * (b1 as int) + 0x1_0000 * (b2 as int) + 0x100_0000 * (b3 as int);
            && (n == 6 <==> b0 == 6 && b1 == 0 && b2 == 0 && b3 == 0)
            && (n == 0xFFFF_FFF5 <==> b0 == 0xF5 && b1 == 0xFF && b2 == 0xFF && b3 == 0xFF)
  {
  }

  /** The bytes of the loop one by one. */
  predicate LoopBytes(bc: seq<byte>)
    requires |bc| >= 21
  {
    && bc[8] == 14 && bc[9] == 6 && bc[10] == 0 && bc[11] == 0 && bc[12] == 0 && bc[13] == 6 && bc[14] == 13
    && bc[15] == 0xF5 && bc[16] == 0xFF && bc[17] == 0xFF && bc[18] == 0xFF && bc[19] == 19 && bc[20] == 0
  }

  lemma LoopIsCode(bc: seq<byte>)
    ensures HasSearchLoop(bc) <==> |bc| >= 21 && bc[8..21] == LOOP_CODE
  {
    if |bc| >= 21 {
      FourBytes(bc[9], bc[10], bc[11], bc[12]);
      FourBytes(bc[15], bc[16], bc[17], bc[18]);
      assert HasSearchLoop(bc) <==> LoopBytes(bc);
      var loop := bc[8..21];
      assert loop[0] == bc[8] && loop[1] == bc[9] && loop[2] == bc[10] && loop[3] == bc[11] && loop[4] == bc[12];
      assert loop[5] == bc[13] && loop[6] == bc[14] && loop[7] == bc[15] && loop[8] == bc[16] && loop[9] == bc[17];
      assert loop[10] == bc[18] && loop[11] == bc[19] && loop[12] == bc[20];
      if LoopBytes(bc) {
        forall i | 0 <= i < 13 ensures loop[i] == LOOP_CODE[i] {
        }
      }
    }
  }
}
