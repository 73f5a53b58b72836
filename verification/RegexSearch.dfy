/** The backtracking matcher, and what it does on programs the prefix analysis calls complete. */
module RegexSearch {
  import opened Prelude
  import opened RegexPrefix

  /** A saved alternative: where to resume, at which position, with which captures. */
  datatype Frame = Frame(pc: int, pos: nat, caps: map<int, nat>)

  datatype State = State(pc: int, pos: nat, caps: map<int, nat>, stack: seq<Frame>)

  datatype Outcome =
    | Running(state: State)
    | Matched(caps: map<int, nat>, pos: nat)
    | NoMatch
    | BadBytecode
    | Unmodelled

  function Backtrack(s: State): Outcome {
    if s.stack == [] then NoMatch
    else
      var top := s.stack[|s.stack| - 1];
      Running(State(top.pc, top.pos, top.caps, s.stack[..|s.stack| - 1]))
  }

  /** One instruction. A split pushes the branch it does not take first. */
  function Execute(m: Machine, text: seq<nat>, s: State): Outcome {
    if !(0 <= s.pc < |m.bc|) then BadBytecode
    else
      var op := m.bc[s.pc];
      if IsChar(op) then
        if s.pc + CharSize(op) > |m.bc| then BadBytecode
        else if CharMatches(m, text, s.pos, Operand(m.bc, s.pc), IsInsensitive(op)) then
          Running(s.(pc := s.pc + CharSize(op), pos := After(text, s.pos, m.unicode)))
        else Backtrack(s)
      else if op == OP_ANY then
        if s.pos < |text| then Running(s.(pc := s.pc + 1, pos := After(text, s.pos, m.unicode))) else Backtrack(s)
      else if op == OP_GOTO then
        if s.pc + 5 > |m.bc| then BadBytecode else Running(s.(pc := s.pc + 5 + S32(m.bc, s.pc + 1)))
      else if op == OP_SPLIT_GOTO_FIRST then
        if s.pc + 5 > |m.bc| then BadBytecode
        else Running(s.(pc := s.pc + 5 + S32(m.bc, s.pc + 1), stack := s.stack + [Frame(s.pc + 5, s.pos, s.caps)]))
      else if op == OP_SPLIT_NEXT_FIRST then
        if s.pc + 5 > |m.bc| then BadBytecode
        else Running(s.(pc := s.pc + 5,
                        stack := s.stack + [Frame(s.pc + 5 + S32(m.bc, s.pc + 1), s.pos, s.caps)]))
      else if IsSave(op) then
        if s.pc + 2 > |m.bc| || m.bc[s.pc + 1] >= m.captures then BadBytecode
        else
          var slot := 2 * (m.bc[s.pc + 1] as int) + (if op == OP_SAVE_END then 1 else 0);
          Running(s.(pc := s.pc + 2, caps := s.caps[slot := s.pos]))
      else if op == OP_MATCH then Matched(s.caps, s.pos)
      else Unmodelled
  }

  function RunFor(m: Machine, text: seq<nat>, s: State, steps: nat): Outcome
    decreases steps
  {
    if steps == 0 then Running(s)
    else
      var next := Execute(m, text, s);
      if next.Running? then RunFor(m, text, next.state, steps - 1) else next
  }

  lemma {:induction false} RunOn(m: Machine, text: seq<nat>, s: State, j: nat, k: nat)
    requires RunFor(m, text, s, j).Running?
    ensures RunFor(m, text, s, j + k) == RunFor(m, text, RunFor(m, text, s, j).state, k)
    decreases j
  {
    if j > 0 {
      RunOn(m, text, Execute(m, text, s).state, j - 1, k);
    }
  }

  /** Once decided, an outcome does not depend on how long the machine may run. */
  lemma {:induction false} DecidedOnce(m: Machine, text: seq<nat>, s: State, j: nat, k: nat)
    requires !RunFor(m, text, s, j).Running? && !RunFor(m, text, s, k).Running?
    ensures RunFor(m, text, s, j) == RunFor(m, text, s, k)
    decreases j
  {
    var next := Execute(m, text, s);
    if next.Running? {
      DecidedOnce(m, text, next.state, j - 1, k - 1);
    }
  }

  /** Capture indices the compiler emits: in range, group 0 opened once and closed last. */
  predicate GoodSaves(m: Machine, p: nat, closed: bool)
    decreases |m.bc| - p
  {
    if p >= |m.bc| then false
    else if IsSave(m.bc[p]) then
      && p + 2 <= |m.bc| && m.bc[p + 1] < m.captures
      && !(m.bc[p] == OP_SAVE_START && m.bc[p + 1] == 0)
      && GoodSaves(m, p + 2, m.bc[p] == OP_SAVE_END && m.bc[p + 1] == 0)
    else if IsChar(m.bc[p]) && p + CharSize(m.bc[p]) <= |m.bc| then GoodSaves(m, p + CharSize(m.bc[p]), false)
    else m.bc[p] == OP_MATCH && closed
  }

  /** A complete linear part runs straight to the match instruction or to the first literal that
      fails, where the matcher falls back to the pending alternative. */
  lemma {:induction false} LinearRun(m: Machine, text: seq<nat>, s: State, points: seq<nat>,
                                     mode: Option<bool>, capacity: nat, start: nat, closed: bool)
    returns (k: nat, caps: map<int, nat>)
    requires 0 <= s.pc && Scan(m.bc, s.pc, points, mode, capacity).complete
    requires GoodSaves(m, s.pc, closed)
    requires 0 in s.caps && s.caps[0] == start && (closed ==> 1 in s.caps && s.caps[1] == s.pos)
    ensures var r := Scan(m.bc, s.pc, points, mode, capacity);
            |points| <= |r.points| &&
            var end := Consumes(m, text, s.pos, r.points[|points|..], r.insensitive);
            if end.Some? then
              && RunFor(m, text, s, k) == Matched(caps, end.value)
              && 0 in caps && caps[0] == start && 1 in caps && caps[1] == end.value
            else RunFor(m, text, s, k) == Backtrack(s.(pos := 0, pc := 0))
    decreases |m.bc| - s.pc
  {
    var bc, p := m.bc, s.pc;
    ScanExtends(bc, p, points, mode, capacity);
    if IsSave(bc[p]) {
      var next := Execute(m, text, s).state;
      k, caps := LinearRun(m, text, next, points, mode, capacity, start, bc[p] == OP_SAVE_END && bc[p + 1] == 0);
      RunOn(m, text, s, 1, k);
      k := k + 1;
    } else if bc[p] == OP_MATCH {
      assert Scan(bc, p, points, mode, capacity).points[|points|..] == [];
      k, caps := 1, s.caps;
    } else {
      var longer, after := points + [Operand(bc, p)], p + CharSize(bc[p]);
      ScanRest(bc, p, points, mode, capacity);
      if CharMatches(m, text, s.pos, Operand(bc, p), IsInsensitive(bc[p])) {
        var next := Execute(m, text, s).state;
        k, caps := LinearRun(m, text, next, longer, Some(IsInsensitive(bc[p])), capacity, start, false);
        RunOn(m, text, s, 1, k);
        k := k + 1;
      } else {
        k, caps := 1, s.caps;
      }
    }
  }

  /** The first character position from `q` on where the literals match, and where they end. */
  function Leftmost(m: Machine, text: seq<nat>, q: nat, points: seq<nat>, insensitive: bool): Option<(nat, nat)>
    decreases |text| - q
  {
    var end := Consumes(m, text, q, points, insensitive);
    if end.Some? then Some((q, end.value))
    else if q < |text| then Leftmost(m, text, After(text, q, m.unicode), points, insensitive)
    else None
  }

  /** The literals match at `i`, one of the character positions from `q` on. */
  predicate OccursAt(m: Machine, text: seq<nat>, q: nat, i: nat, points: seq<nat>, insensitive: bool) {
    Reaches(m, text, q, i) && Consumes(m, text, i, points, insensitive).Some?
  }

  /** Leftmost is what its name says: none exactly when there is no occurrence, and no occurrence
      lies before the one it gives. */
  lemma {:induction false} LeftmostIsFirst(m: Machine, text: seq<nat>, q: nat, points: seq<nat>, insensitive: bool)
    ensures var r := Leftmost(m, text, q, points, insensitive);
            && (r.None? <==> forall i: nat :: !OccursAt(m, text, q, i, points, insensitive))
            && (r.Some? ==>
                  && OccursAt(m, text, q, r.value.0, points, insensitive)
                  && Consumes(m, text, r.value.0, points, insensitive) == Some(r.value.1)
                  && forall i: nat :: OccursAt(m, text, q, i, points, insensitive) ==> r.value.0 <= i)
    decreases |text| - q
  {
    if Consumes(m, text, q, points, insensitive).Some? {
      assert OccursAt(m, text, q, q, points, insensitive);
      forall i: nat | OccursAt(m, text, q, i, points, insensitive) ensures q <= i { ReachesForward(m, text, q, i); }
    } else if q < |text| {
      var next := After(text, q, m.unicode);
      LeftmostIsFirst(m, text, next, points, insensitive);
      forall i: nat
        ensures OccursAt(m, text, q, i, points, insensitive) <==> OccursAt(m, text, next, i, points, insensitive)
      {
        if Reaches(m, text, next, i) { ReachesForward(m, text, next, i); }
      }
    }
  }

  lemma {:induction false} ReachesForward(m: Machine, text: seq<nat>, from: nat, q: nat)
    requires Reaches(m, text, from, q)
    ensures from <= q
    decreases |text| - from
  {
    if from != q {
      ReachesForward(m, text, After(text, from, m.unicode), q);
    }
  }

  ghost predicate CompleteProgram(m: Machine, capacity: nat) {
    && HasSearchLoop(m.bc) && Analyse(m.bc, capacity).complete
    && 0 < m.captures && GoodSaves(m, LINEAR, false)
  }

  /** One turn of the search loop: from the entry at `q` to a match there, or to the retry. */
  lemma Attempt(m: Machine, text: seq<nat>, q: nat, before: map<int, nat>, capacity: nat)
    returns (k: nat, caps: map<int, nat>)
    requires CompleteProgram(m, capacity)
    ensures var r := Analyse(m.bc, capacity);
            var end := Consumes(m, text, q, r.points, r.insensitive);
            var outcome := RunFor(m, text, State(ENTRY, q, before, []), k);
            if end.None? then outcome == Running(State(13, q, before, []))
            else
              && outcome == Matched(caps, end.value)
              && 0 in caps && caps[0] == q && 1 in caps && caps[1] == end.value
  {
    var r := Analyse(m.bc, capacity);
    var s := State(ENTRY, q, before, []);
    var split := State(BODY, q, before, [Frame(13, q, before)]);
    var entered := State(LINEAR, q, before[0 := q], [Frame(13, q, before)]);
    assert RunFor(m, text, s, 2) == Running(entered) by {
      assert Execute(m, text, s) == Running(split);
      assert RunFor(m, text, split, 1) == Running(entered);
    }
    var j, c := LinearRun(m, text, entered, [], None, capacity, q, false);
    assert r.points[0..] == r.points;
    RunOn(m, text, s, 2, j);
    k, caps := 2 + j, c;
  }

  lemma Retry(m: Machine, text: seq<nat>, q: nat, before: map<int, nat>)
    requires HasSearchLoop(m.bc)
    ensures q < |text| ==> RunFor(m, text, State(13, q, before, []), 2)
                           == Running(State(ENTRY, After(text, q, m.unicode), before, []))
    ensures q >= |text| ==> RunFor(m, text, State(13, q, before, []), 1) == NoMatch
  {
    if q < |text| {
      var consumed := State(14, After(text, q, m.unicode), before, []);
      assert RunFor(m, text, consumed, 1) == Running(State(ENTRY, After(text, q, m.unicode), before, []));
    }
  }

  /** On a complete program the matcher always decides: it reports the leftmost occurrence of the
      literals as group 0, and fails exactly when there is none. */
  lemma {:induction false} CompleteSearch(m: Machine, text: seq<nat>, q: nat, before: map<int, nat>, capacity: nat)
    returns (k: nat, caps: map<int, nat>)
    requires CompleteProgram(m, capacity)
    ensures var r := Analyse(m.bc, capacity);
            var found := Leftmost(m, text, q, r.points, r.insensitive);
            var outcome := RunFor(m, text, State(ENTRY, q, before, []), k);
            if found.None? then outcome == NoMatch
            else
              && outcome == Matched(caps, found.value.1)
              && 0 in caps && caps[0] == found.value.0 && 1 in caps && caps[1] == found.value.1
    decreases |text| - q
  {
    var r, s, retry := Analyse(m.bc, capacity), State(ENTRY, q, before, []), State(13, q, before, []);
    k, caps := Attempt(m, text, q, before, capacity);
    if Consumes(m, text, q, r.points, r.insensitive).None? {
      Retry(m, text, q, before);
      if q < |text| {
        var l, c := CompleteSearch(m, text, After(text, q, m.unicode), before, capacity);
        RunOn(m, text, retry, 2, l);
        RunOn(m, text, s, k, 2 + l);
        k, caps := k + (2 + l), c;
      } else {
        RunOn(m, text, s, k, 1);
        k := k + 1;
      }
    }
  }
}
