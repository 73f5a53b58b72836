/** Search blocks: their derivation, and the block-filtered search against the linear scan. */
module BlockSearch {
  import opened Prelude
  import opened RegexPrefix
  import opened Utf
  import opened Matching

  datatype Record<T> = Record(text: Text, payload: T)

  /** A row of the `searches` table and a row of the `search_blocks` table, for one scope. */
  datatype Row<T> = Row(ordinal: nat, text: Text, payload: T)
  datatype Block = Block(block: nat, first: nat, last: nat, payload: seq<byte>)

  const BLOCK_LIMIT := 128 * 1024

  // ---------------------------------------------------------------------------------------
  // Derivation
  // ---------------------------------------------------------------------------------------

  /** The texts, each closed by a NUL byte. */
  function Joined<T>(records: seq<Record<T>>): seq<byte> {
    if records == [] then []
    else Joined(records[..|records| - 1]) + (Utf8(records[|records| - 1].text) + [0])
  }

  function RowsOf<T>(records: seq<Record<T>>): (rows: seq<Row<T>>)
    ensures |rows| == |records|
    ensures forall i :: 0 <= i < |rows| ==> rows[i] == Row(i, records[i].text, records[i].payload)
  {
    seq(|records|, i requires 0 <= i < |records| => Row(i, records[i].text, records[i].payload))
  }

  /** Where the b-th block begins. */
  function StartOf(blocks: seq<Block>, b: nat): nat
    requires b <= |blocks|
  {
    if b == 0 then 0 else blocks[b - 1].last + 1
  }

  predicate Follows(blocks: seq<Block>, b: nat)
    requires b < |blocks|
  {
    blocks[b].block == b && blocks[b].first == StartOf(blocks, b) && blocks[b].first <= blocks[b].last
  }

  /** Block numbers are consecutive and their ranges follow each other from ordinal 0 up to `end`. */
  ghost predicate Ranges(blocks: seq<Block>, end: nat) {
    && (forall b :: 0 <= b < |blocks| ==> Follows(blocks, b))
    && end == StartOf(blocks, |blocks|)
  }

  /** A block holds its records' texts and is closed by the record that fills it. */
  ghost predicate GoodBlock<T>(b: Block, records: seq<Record<T>>) {
    && b.first <= b.last < |records|
    && b.payload == Joined(records[b.first..b.last + 1])
    && (|b.payload| >= 128 * 1024 || b.last == |records| - 1)
    && |Joined(records[b.first..b.last])| < 128 * 1024
  }

  ghost predicate Tiles<T>(blocks: seq<Block>, records: seq<Record<T>>, end: nat) {
    Ranges(blocks, end) && forall b :: 0 <= b < |blocks| ==> GoodAt(blocks, b, records)
  }

  ghost predicate GoodAt<T>(blocks: seq<Block>, b: nat, records: seq<Record<T>>)
    requires b < |blocks|
  {
    GoodBlock(blocks[b], records)
  }

  lemma CloseBlock<T>(blocks: seq<Block>, records: seq<Record<T>>, first: nat, ordinal: nat, payload: seq<byte>)
    requires Tiles(blocks, records, first) && first <= ordinal < |records|
    requires payload == Joined(records[first..ordinal + 1]) && |Joined(records[first..ordinal])| < BLOCK_LIMIT
    requires |payload| >= BLOCK_LIMIT || ordinal + 1 == |records|
    ensures Tiles(blocks + [Block(|blocks|, first, ordinal, payload)], records, ordinal + 1)
  {
    var block := Block(|blocks|, first, ordinal, payload);
    var longer := blocks + [block];
    assert GoodBlock(block, records);
    forall b | 0 <= b < |longer| ensures GoodAt(longer, b, records) {
      if b < |blocks| { assert GoodAt(blocks, b, records); } else { assert longer[b] == block; }
    }
    RangesStep(blocks, block);
  }

  lemma RangesStep(blocks: seq<Block>, block: Block)
    requires Ranges(blocks, block.first) && block.block == |blocks| && block.first <= block.last
    ensures Ranges(blocks + [block], block.last + 1)
  {
    var longer := blocks + [block];
    forall b | 0 <= b < |longer| ensures Follows(longer, b) {
      if b < |blocks| {
        assert Follows(blocks, b);
        assert longer[b] == blocks[b] && StartOf(longer, b) == StartOf(blocks, b);
      }
    }
  }

  lemma JoinedStep<T>(records: seq<Record<T>>, first: nat, ordinal: nat)
    requires first <= ordinal < |records|
    ensures Joined(records[first..ordinal + 1])
            == Joined(records[first..ordinal]) + (Utf8(records[ordinal].text) + [0])
  {
    assert records[first..ordinal + 1][..ordinal - first] == records[first..ordinal];
  }

  lemma TileAt<T>(blocks: seq<Block>, records: seq<Record<T>>, end: nat, b: nat)
    requires Tiles(blocks, records, end) && b < |blocks|
    ensures GoodBlock(blocks[b], records) && blocks[b].first == StartOf(blocks, b)
  {
    assert Follows(blocks, b) && GoodAt(blocks, b, records);
  }

  /** The records with their payloads as they are written to the database. */
  function Stored<T, P>(records: seq<Record<T>>, write: T -> P): (stored: seq<Record<P>>)
    ensures |stored| == |records|
    ensures forall i :: 0 <= i < |stored| ==> stored[i] == Record(records[i].text, write(records[i].payload))
  {
    seq(|records|, i requires 0 <= i < |records| => Record(records[i].text, write(records[i].payload)))
  }

  method Derive<T, P>(records: seq<Record<T>>, write: T -> P) returns (rows: seq<Row<P>>, blocks: seq<Block>)
    ensures rows == RowsOf(Stored(records, write))
    ensures Tiles(blocks, Stored(records, write), |records|)
  {
    ghost var stored := Stored(records, write);
    rows, blocks := [], [];
    var block: seq<byte> := [];
    var blockNo, first := 0, 0;
    for ordinal := 0 to |records|
      invariant |rows| == ordinal
      invariant forall i :: 0 <= i < ordinal ==> rows[i] == Row(i, stored[i].text, stored[i].payload)
      invariant blockNo == |blocks| && first <= ordinal
      invariant Tiles(blocks, stored, first)
      invariant block == Joined(stored[first..ordinal])
      invariant |block| < BLOCK_LIMIT
      invariant ordinal == |records| ==> first == ordinal
    {
      var record := records[ordinal];
      rows := rows + [Row(ordinal, record.text, write(record.payload))];
      block := block + (Utf8(record.text) + [0]);
      JoinedStep(stored, first, ordinal);
      if |block| >= BLOCK_LIMIT || ordinal + 1 == |records| {
        CloseBlock(blocks, stored, first, ordinal, block);
        blocks := blocks + [Block(blockNo, first, ordinal, block)];
        block := [];
        blockNo := blockNo + 1;
        first := ordinal + 1;
      }
    }
  }

  lemma {:induction false} BlocksAscend(blocks: seq<Block>, end: nat, b: nat, c: nat)
    requires Ranges(blocks, end) && b < c < |blocks|
    ensures blocks[b].last < blocks[c].first
    decreases c
  {
    assert Follows(blocks, c);
    if b + 1 < c {
      assert Follows(blocks, c - 1);
      BlocksAscend(blocks, end, b, c - 1);
    }
  }

  /** No gap and no overlap: every ordinal below the end lies in exactly one block. */
  lemma {:induction false} ExactlyOneBlock(blocks: seq<Block>, end: nat, i: nat) returns (b: nat)
    requires Ranges(blocks, end) && i < end
    ensures b < |blocks| && blocks[b].first <= i <= blocks[b].last
    ensures forall c :: 0 <= c < |blocks| && blocks[c].first <= i <= blocks[c].last ==> c == b
  {
    b := |blocks| - 1;
    while i < blocks[b].first
      invariant 0 <= b < |blocks| && i <= blocks[b].last
      decreases b
    {
      assert Follows(blocks, b);
      b := b - 1;
    }
    forall c | 0 <= c < |blocks| && blocks[c].first <= i <= blocks[c].last ensures c == b {
      if c < b { BlocksAscend(blocks, end, c, b); }
      if b < c { BlocksAscend(blocks, end, b, c); }
    }
  }

  /** A record's text stands unbroken in the payload of its block. */
  lemma {:induction false} TextInPayload<T>(records: seq<Record<T>>, i: nat) returns (o: nat)
    requires i < |records|
    ensures SliceAt(Joined(records), o, Utf8(records[i].text))
  {
    var n := |records| - 1;
    if i == n {
      o := |Joined(records[..n])|;
    } else {
      o := TextInPayload(records[..n], i);
      assert SliceAt(Joined(records), 0, Joined(records[..n]));
      SliceOfSlice(Joined(records), 0, Joined(records[..n]), o, Utf8(records[i].text));
    }
  }

  // ---------------------------------------------------------------------------------------
  // Linear scan
  // ---------------------------------------------------------------------------------------

  /** Whether a text matches; none when the engine gives up on it. */
  type Answer = Text -> Option<bool>

  /** The first `left` matches in order; none when the engine gives up before they are found. */
  function FirstMatches<T>(records: seq<Record<T>>, answer: Answer, left: nat): Option<seq<T>>
    requires left > 0
  {
    if records == [] then Some([])
    else
      var matched := answer(records[0].text);
      if matched.None? then None
      else if !matched.value then FirstMatches(records[1..], answer, left)
      else if left == 1 then Some([records[0].payload])
      else Prepend([records[0].payload], FirstMatches(records[1..], answer, left - 1))
  }

  function Prepend<T>(found: seq<T>, rest: Option<seq<T>>): Option<seq<T>> {
    if rest.None? then None else Some(found + rest.value)
  }

  function AllMatches<T>(records: seq<Record<T>>, answer: Answer): seq<T> {
    if records == [] then []
    else (if answer(records[0].text) == Some(true) then [records[0].payload] else [])
         + AllMatches(records[1..], answer)
  }

  /** With an engine that always answers, the scan gives the matches cut to the limit. */
  lemma {:induction false} FirstMatchesAreAll<T>(records: seq<Record<T>>, answer: Answer, left: nat)
    requires left > 0 && forall i :: 0 <= i < |records| ==> answer(records[i].text).Some?
    ensures var all := AllMatches(records, answer);
            FirstMatches(records, answer, left) == Some(if |all| <= left then all else all[..left])
  {
    if records != [] {
      var rest := AllMatches(records[1..], answer);
      if answer(records[0].text) == Some(true) {
        if left > 1 {
          FirstMatchesAreAll(records[1..], answer, left - 1);
          assert AllMatches(records, answer) == [records[0].payload] + rest;
          if |rest| > left - 1 {
            assert ([records[0].payload] + rest)[..left] == [records[0].payload] + rest[..left - 1];
          }
        } else {
          assert ([records[0].payload] + rest)[..1] == [records[0].payload];
          assert |rest| == 0 ==> [records[0].payload] + rest == [records[0].payload];
        }
      } else {
        assert AllMatches(records, answer) == rest;
        FirstMatchesAreAll(records[1..], answer, left);
      }
    }
  }

  ghost predicate GivesUpAt<T>(records: seq<Record<T>>, answer: Answer, left: nat, i: nat)
    requires i < |records|
  {
    answer(records[i].text).None? && |AllMatches(records[..i], answer)| < left
  }

  /** The engine gives up on a record before which fewer matches stand than are wanted. */
  ghost predicate GivesUp<T>(records: seq<Record<T>>, answer: Answer, left: nat) {
    exists i :: 0 <= i < |records| && GivesUpAt(records, answer, left, i)
  }

  lemma GivesUpLater<T>(records: seq<Record<T>>, answer: Answer, left: nat)
    requires records != [] && left > 0
    ensures var next := if answer(records[0].text) == Some(true) then left - 1 else left;
            GivesUp(records, answer, left) <==>
              answer(records[0].text).None? || (next > 0 && GivesUp(records[1..], answer, next))
  {
    var next := if answer(records[0].text) == Some(true) then left - 1 else left;
    assert records[..0] == [];
    assert GivesUpAt(records, answer, left, 0) <==> answer(records[0].text).None?;
    forall i | 0 <= i < |records[1..]|
      ensures GivesUpAt(records, answer, left, i + 1) <==> next > 0 && GivesUpAt(records[1..], answer, next, i)
    {
      assert records[..i + 1][1..] == records[1..][..i] && records[..i + 1][0] == records[0];
    }
    if GivesUp(records, answer, left) {
      var i :| 0 <= i < |records| && GivesUpAt(records, answer, left, i);
      if i > 0 {
        assert GivesUpAt(records[1..], answer, next, i - 1) by { assert GivesUpAt(records, answer, left, (i - 1) + 1); }
      }
    }
    if next > 0 && GivesUp(records[1..], answer, next) {
      var i :| 0 <= i < |records[1..]| && GivesUpAt(records[1..], answer, next, i);
      assert GivesUpAt(records, answer, left, i + 1);
    }
  }

  function Cut<T>(all: seq<T>, limit: nat): seq<T> {
    if |all| <= limit then all else all[..limit]
  }

  lemma CutOne<T>(first: T, rest: seq<T>, limit: nat)
    requires limit > 0
    ensures Cut([first] + rest, limit) == [first] + Cut(rest, limit - 1)
  {
  }

  /** The scan in every case: it gives up exactly when the engine does before enough is found;
      otherwise it gives the matches cut to the limit. */
  lemma {:induction false} FirstMatchesExactly<T>(records: seq<Record<T>>, answer: Answer, left: nat)
    requires left > 0
    ensures FirstMatches(records, answer, left) ==
            if GivesUp(records, answer, left) then None else Some(Cut(AllMatches(records, answer), left))
  {
    if records != [] {
      var matched := answer(records[0].text);
      var next := if matched == Some(true) then left - 1 else left;
      GivesUpLater(records, answer, left);
      hide GivesUp, Cut;
      if matched == Some(true) {
        assert AllMatches(records, answer) == [records[0].payload] + AllMatches(records[1..], answer);
        CutOne(records[0].payload, AllMatches(records[1..], answer), left);
        if next == 0 {
          CutNone(AllMatches(records[1..], answer));
          assert [records[0].payload] + [] == [records[0].payload];
        }
      } else {
        assert AllMatches(records, answer) == AllMatches(records[1..], answer);
      }
      if matched.Some? && next > 0 {
        FirstMatchesExactly(records[1..], answer, next);
      }
    }
  }

  lemma CutNone<T>(all: seq<T>)
    ensures Cut(all, 0) == []
  {
  }

  /** Where an engine answers at all, another one agrees with it; so do their scans. */
  lemma {:induction false} AgreeingScans<T>(records: seq<Record<T>>, answer: Answer, other: Answer, left: nat)
    requires left > 0 && forall t: Text :: answer(t).Some? ==> other(t) == answer(t)
    ensures FirstMatches(records, answer, left).Some? ==>
              FirstMatches(records, other, left) == FirstMatches(records, answer, left)
  {
    if records != [] {
      var matched := answer(records[0].text);
      AgreeingScans(records[1..], answer, other, if matched == Some(true) && left > 1 then left - 1 else left);
    }
  }

  /** What is still to be found in `rest`, put after what has been found, is what is wanted. */
  ghost predicate Pending<T>(wanted: Option<seq<T>>, rest: seq<Record<T>>, answer: Answer, limit: nat, results: seq<T>) {
    |results| < limit && wanted == Prepend(results, FirstMatches(rest, answer, limit - |results|))
  }

  /** One more record: refused, taken, or taken as the last one wanted; or the scan gives up. */
  lemma PendingStep<T>(wanted: Option<seq<T>>, rest: seq<Record<T>>, answer: Answer, limit: nat, results: seq<T>)
    requires rest != [] && Pending(wanted, rest, answer, limit, results)
    ensures var matched, longer := answer(rest[0].text), results + [rest[0].payload];
            && (matched.None? ==> wanted.None?)
            && (matched == Some(false) ==> Pending(wanted, rest[1..], answer, limit, results))
            && (matched == Some(true) && |longer| < limit ==> Pending(wanted, rest[1..], answer, limit, longer))
            && (matched == Some(true) && |longer| >= limit ==> wanted == Some(longer))
  {
    var matched, longer := answer(rest[0].text), results + [rest[0].payload];
    if matched == Some(true) && |longer| < limit {
      var more := FirstMatches(rest[1..], answer, limit - |longer|);
      if more.Some? {
        assert results + ([rest[0].payload] + more.value) == longer + more.value;
      }
    }
  }

  lemma PendingEnds<T>(records: seq<Record<T>>, answer: Answer, limit: nat, results: seq<T>)
    ensures limit > 0 ==> Pending(FirstMatches(records, answer, limit), records, answer, limit, [])
    ensures |results| < limit ==> Pending(Some(results), [], answer, limit, results)
  {
    if limit > 0 {
      var all := FirstMatches(records, answer, limit);
      assert all.Some? ==> [] + all.value == all.value;
    }
    assert results + [] == results;
  }

  /** `is_match` as an answer. */
  function Answers(rx: Regex): Answer
    requires UsablePrefix(rx.prefix)
  {
    (t: Text) => IsMatch(rx, t)
  }

  /** The scan over records kept in memory. */
  method LinearSearch<T>(records: seq<Record<T>>, rx: Regex, limit: nat) returns (r: Option<seq<T>>)
    requires limit > 0 && Sound(rx)
    ensures r == FirstMatches(records, Answers(rx), limit)
    ensures FirstMatches(records, rx.native, limit).Some? ==> r == FirstMatches(records, rx.native, limit)
  {
    AgreeingScans(records, rx.native, Answers(rx), limit);
    ghost var wanted := FirstMatches(records, Answers(rx), limit);
    PendingEnds(records, Answers(rx), limit, []);
    var results: seq<T> := [];
    assert records[0..] == records;
    for o := 0 to |records|
      invariant Pending(wanted, records[o..], Answers(rx), limit, results)
    {
      PendingStep(wanted, records[o..], Answers(rx), limit, results);
      assert records[o..][0] == records[o] && records[o..][1..] == records[o + 1..];
      var matched := IsMatch(rx, records[o].text);
      if matched.None? { return None; }
      if matched.value {
        results := results + [records[o].payload];
        if |results| >= limit { return Some(results); }
      }
    }
    PendingEnds(records, Answers(rx), limit, results);
    return Some(results);
  }

  // ---------------------------------------------------------------------------------------
  // The records of the blocks that are read
  // ---------------------------------------------------------------------------------------

  /** The records of the blocks from the b-th on that the prefilter does not reject, in order. */
  ghost function Kept<T>(records: seq<Record<T>>, blocks: seq<Block>, prefix: Option<Prefix>, b: nat): seq<Record<T>>
    requires Tiles(blocks, records, |records|) && b <= |blocks|
    decreases |blocks| - b
  {
    if b == |blocks| then []
    else
      assert GoodAt(blocks, b, records);
      (if MayMatch(prefix, blocks[b].payload) then records[blocks[b].first..blocks[b].last + 1] else [])
      + Kept(records, blocks, prefix, b + 1)
  }

  /** An engine that gives up on the o-th record, which lies in a rejected block. */
  ghost predicate GivesUpUnread<T>(records: seq<Record<T>>, blocks: seq<Block>, rx: Regex, o: nat)
    requires UsablePrefix(rx.prefix)
  {
    && o < |records| && IsMatch(rx, records[o].text).None?
    && exists b :: 0 <= b < |blocks| && Rejected(blocks, b, rx, o)
  }

  ghost predicate Rejected(blocks: seq<Block>, b: nat, rx: Regex, o: nat)
    requires UsablePrefix(rx.prefix) && b < |blocks|
  {
    blocks[b].first <= o <= blocks[b].last && !MayMatch(rx.prefix, blocks[b].payload)
  }

  /** The two scans agree, or the linear one gives up on a record that the other does not read. */
  ghost predicate SameUnlessUnread<T>(linear: Option<seq<T>>, kept: Option<seq<T>>, records: seq<Record<T>>,
                                      blocks: seq<Block>, rx: Regex)
    requires UsablePrefix(rx.prefix)
  {
    linear == kept || (linear.None? && exists o: nat :: GivesUpUnread(records, blocks, rx, o))
  }

  /** Whatever the limit, the scans of the two lists agree unless the first gives up unread. */
  ghost predicate ScansAgree<T>(p: seq<Record<T>>, q: seq<Record<T>>, records: seq<Record<T>>, blocks: seq<Block>, rx: Regex)
    requires UsablePrefix(rx.prefix)
  {
    forall n: nat :: 0 < n ==>
      SameUnlessUnread(FirstMatches(p, Answers(rx), n), FirstMatches(q, Answers(rx), n), records, blocks, rx)
  }

  lemma RejectedDoesNotMatch<T>(records: seq<Record<T>>, block: Block, rx: Regex, o: nat)
    requires Sound(rx) && GoodBlock(block, records) && !MayMatch(rx.prefix, block.payload)
    requires block.first <= o <= block.last
    ensures IsMatch(rx, records[o].text) != Some(true)
  {
    hide MayMatch, IsMatch;
    var inside := records[block.first..block.last + 1];
    assert inside[o - block.first] == records[o];
    var at := TextInPayload(inside, o - block.first);
    assert SliceAt(block.payload, at, Utf8(records[o].text));
  }

  /** A rejected block holds no match: the linear scan passes through it, or gives up in it. */
  lemma SkippedBlock<T>(records: seq<Record<T>>, blocks: seq<Block>, b: nat, rx: Regex, left: nat, o: nat)
    requires Sound(rx) && b < |blocks| && GoodBlock(blocks[b], records) && !MayMatch(rx.prefix, blocks[b].payload)
    requires blocks[b].first <= o <= blocks[b].last + 1 && left > 0
    ensures SameUnlessUnread(FirstMatches(records[o..], Answers(rx), left),
                             FirstMatches(records[blocks[b].last + 1..], Answers(rx), left), records, blocks, rx)
    decreases blocks[b].last + 1 - o
  {
    var block := blocks[b];
    if o <= block.last {
      RejectedDoesNotMatch(records, block, rx, o);
      hide MayMatch, IsMatch, GoodBlock;
      assert records[o..][0] == records[o] && records[o..][1..] == records[o + 1..];
      if IsMatch(rx, records[o].text).None? {
        assert Rejected(blocks, b, rx, o);
        assert GivesUpUnread(records, blocks, rx, o);
      } else {
        SkippedBlock(records, blocks, b, rx, left, o + 1);
      }
    }
  }

  /** The scans of two lists with the same first `n` records differ at most as the scans of what follows. */
  lemma {:induction false} SameHead<T>(same: seq<Record<T>>, p: seq<Record<T>>, q: seq<Record<T>>, left: nat,
                                       records: seq<Record<T>>, blocks: seq<Block>, rx: Regex)
    requires UsablePrefix(rx.prefix) && left > 0
    requires ScansAgree(p, q, records, blocks, rx)
    ensures SameUnlessUnread(FirstMatches(same + p, Answers(rx), left), FirstMatches(same + q, Answers(rx), left),
                             records, blocks, rx)
  {
    if same == [] {
      assert same + p == p && same + q == q;
    } else {
      assert (same + p)[1..] == same[1..] + p && (same + q)[1..] == same[1..] + q;
      var matched := IsMatch(rx, same[0].text);
      if matched.Some? && !(matched.value && left == 1) {
        SameHead(same[1..], p, q, if matched.value then left - 1 else left, records, blocks, rx);
      }
    }
  }

  lemma KeptAt<T>(records: seq<Record<T>>, blocks: seq<Block>, prefix: Option<Prefix>, b: nat)
    requires Tiles(blocks, records, |records|) && b < |blocks|
    ensures blocks[b].first <= blocks[b].last < |records|
    ensures var kept := Kept(records, blocks, prefix, b + 1);
            Kept(records, blocks, prefix, b) ==
              if MayMatch(prefix, blocks[b].payload) then records[blocks[b].first..blocks[b].last + 1] + kept else kept
  {
    TileAt(blocks, records, |records|, b);
    assert [] + Kept(records, blocks, prefix, b + 1) == Kept(records, blocks, prefix, b + 1);
  }

  lemma AgreeTransitively<T>(p: seq<Record<T>>, q: seq<Record<T>>, kept: seq<Record<T>>, n: nat,
                             records: seq<Record<T>>, blocks: seq<Block>, rx: Regex)
    requires UsablePrefix(rx.prefix) && n > 0 && ScansAgree(q, kept, records, blocks, rx)
    requires SameUnlessUnread(FirstMatches(p, Answers(rx), n), FirstMatches(q, Answers(rx), n), records, blocks, rx)
    ensures SameUnlessUnread(FirstMatches(p, Answers(rx), n), FirstMatches(kept, Answers(rx), n), records, blocks, rx)
  {
    hide FirstMatches;
  }

  lemma ReadAgrees<T>(inside: seq<Record<T>>, rest: seq<Record<T>>, kept: seq<Record<T>>,
                      records: seq<Record<T>>, blocks: seq<Block>, rx: Regex)
    requires UsablePrefix(rx.prefix) && ScansAgree(rest, kept, records, blocks, rx)
    ensures ScansAgree(inside + rest, inside + kept, records, blocks, rx)
  {
    forall n: nat | 0 < n
      ensures SameUnlessUnread(FirstMatches(inside + rest, Answers(rx), n), FirstMatches(inside + kept, Answers(rx), n),
                               records, blocks, rx)
    {
      hide ScansAgree, FirstMatches, SameUnlessUnread;
      SameHead(inside, rest, kept, n, records, blocks, rx);
    }
  }

  lemma RejectedAgrees<T>(records: seq<Record<T>>, blocks: seq<Block>, b: nat, rx: Regex, kept: seq<Record<T>>)
    requires Sound(rx) && b < |blocks| && GoodBlock(blocks[b], records) && !MayMatch(rx.prefix, blocks[b].payload)
    requires ScansAgree(records[blocks[b].last + 1..], kept, records, blocks, rx)
    ensures ScansAgree(records[blocks[b].first..], kept, records, blocks, rx)
  {
    var p, q := records[blocks[b].first..], records[blocks[b].last + 1..];
    forall n: nat | 0 < n
      ensures SameUnlessUnread(FirstMatches(p, Answers(rx), n), FirstMatches(kept, Answers(rx), n), records, blocks, rx)
    {
      SkippedBlock(records, blocks, b, rx, n, blocks[b].first);
      hide Sound, GoodBlock, MayMatch, ScansAgree, FirstMatches, SameUnlessUnread;
      AgreeTransitively(p, q, kept, n, records, blocks, rx);
    }
  }

  lemma SplitAt<T>(records: seq<Record<T>>, from: nat, to: nat)
    requires from <= to <= |records|
    ensures records[from..] == records[from..to] + records[to..]
  {
  }

  /** One block in front: read by both scans, or rejected. */
  lemma KeptBlock<T>(records: seq<Record<T>>, blocks: seq<Block>, rx: Regex, b: nat)
    requires Sound(rx) && Tiles(blocks, records, |records|) && b < |blocks|
    requires blocks[b].first <= blocks[b].last < |records|
    requires ScansAgree(records[blocks[b].last + 1..], Kept(records, blocks, rx.prefix, b + 1), records, blocks, rx)
    ensures ScansAgree(records[blocks[b].first..], Kept(records, blocks, rx.prefix, b), records, blocks, rx)
  {
    assert UsablePrefix(rx.prefix);
    hide Sound, Kept, MayMatch, GoodBlock, ScansAgree;
    TileAt(blocks, records, |records|, b);
    KeptAt(records, blocks, rx.prefix, b);
    hide Tiles;
    var kept := Kept(records, blocks, rx.prefix, b + 1);
    if MayMatch(rx.prefix, blocks[b].payload) {
      SplitAt(records, blocks[b].first, blocks[b].last + 1);
      ReadAgrees(records[blocks[b].first..blocks[b].last + 1], records[blocks[b].last + 1..], kept, records, blocks, rx);
    } else {
      RejectedAgrees(records, blocks, b, rx, kept);
    }
  }

  lemma StartIsWithin<T>(blocks: seq<Block>, records: seq<Record<T>>, b: nat)
    requires Tiles(blocks, records, |records|) && b <= |blocks|
    ensures StartOf(blocks, b) <= |records|
    ensures b < |blocks| ==> StartOf(blocks, b) == blocks[b].first <= blocks[b].last < |records|
    ensures b < |blocks| ==> StartOf(blocks, b + 1) == blocks[b].last + 1
    ensures b == |blocks| ==> StartOf(blocks, b) == |records|
  {
    if b < |blocks| {
      TileAt(blocks, records, |records|, b);
    }
  }

  /** The scan of the blocks that are read is the linear scan, unless that one gives up on a record
      of a block that is not read. */
  lemma {:induction false} KeptIsEnough<T>(records: seq<Record<T>>, blocks: seq<Block>, rx: Regex, b: nat)
    requires Sound(rx) && Tiles(blocks, records, |records|) && b <= |blocks|
    ensures StartOf(blocks, b) <= |records|
    ensures ScansAgree(records[StartOf(blocks, b)..], Kept(records, blocks, rx.prefix, b), records, blocks, rx)
    decreases |blocks| - b
  {
    StartIsWithin(blocks, records, b);
    if b < |blocks| {
      hide FirstMatches, SameUnlessUnread, ScansAgree, GoodBlock, Sound, MayMatch, Kept, Tiles, StartOf;
      KeptIsEnough(records, blocks, rx, b + 1);
      KeptBlock(records, blocks, rx, b);
    }
  }

  // ---------------------------------------------------------------------------------------
  // Block-filtered search
  // ---------------------------------------------------------------------------------------

  /** `ordinal BETWEEN first AND last`, in ordinal order. */
  function Between<T>(rows: seq<Row<T>>, first: nat, last: nat): seq<Row<T>> {
    if rows == [] then []
    else (if first <= rows[0].ordinal <= last then [rows[0]] else []) + Between(rows[1..], first, last)
  }

  lemma {:induction false} BetweenIsSlice<T>(records: seq<Record<T>>, from: nat, first: nat, last: nat)
    requires from <= |records| && first <= last < |records|
    ensures Between(RowsOf(records)[from..], first, last)
            == RowsOf(records)[if from < first then first else if from > last then last + 1 else from..last + 1]
    decreases |records| - from
  {
    var rows := RowsOf(records);
    if from < |records| {
      assert rows[from..][1..] == rows[from + 1..];
      BetweenIsSlice(records, from + 1, first, last);
      if first <= from <= last {
        assert [rows[from]] + rows[from + 1..last + 1] == rows[from..last + 1];
      }
    }
  }

  /** The rows read for one block hold its records. */
  ghost predicate RowsHold<T>(entries: seq<Row<T>>, inside: seq<Record<T>>) {
    && |entries| == |inside|
    && forall i :: 0 <= i < |entries| ==> entries[i].text == inside[i].text && entries[i].payload == inside[i].payload
  }

  method ReadRows<T>(rows: seq<Row<T>>, first: nat, last: nat, ghost records: seq<Record<T>>)
    returns (entries: seq<Row<T>>)
    requires rows == RowsOf(records) && first <= last < |records|
    ensures RowsHold(entries, records[first..last + 1])
  {
    BetweenIsSlice(records, 0, first, last);
    assert rows[0..] == rows;
    entries := Between(rows, first, last);
  }

  /** Payloads read back, all of them or none. */
  function ReadAll<P, T>(stored: seq<P>, read: P -> Option<T>): (r: Option<seq<T>>)
    ensures r.Some? ==> |r.value| == |stored|
  {
    if stored == [] then Some([])
    else
      var before, last := ReadAll(stored[..|stored| - 1], read), read(stored[|stored| - 1]);
      if before.None? || last.None? then None else Some(before.value + [last.value])
  }

  function Read<P, T>(found: Option<seq<P>>, read: P -> Option<T>): Option<seq<T>> {
    if found.None? then None else ReadAll(found.value, read)
  }

  lemma {:induction false} ReadConcat<P, T>(a: seq<P>, b: seq<P>, read: P -> Option<T>)
    ensures ReadAll(a + b, read) == if ReadAll(a, read).None? then None else Prepend(ReadAll(a, read).value, ReadAll(b, read))
    decreases |b|
  {
    if b == [] {
      assert a + b == a;
      assert ReadAll(a, read).Some? ==> ReadAll(a, read).value + [] == ReadAll(a, read).value;
    } else {
      var n := |b| - 1;
      ReadConcat(a, b[..n], read);
      assert (a + b)[..|a| + n] == a + b[..n];
      var x, y, z := ReadAll(a, read), ReadAll(b[..n], read), read(b[n]);
      if x.Some? && y.Some? && z.Some? {
        assert x.value + (y.value + [z.value]) == (x.value + y.value) + [z.value];
      }
    }
  }

  lemma ReadStep<P, T>(stored: seq<P>, p: P, read: P -> Option<T>)
    requires ReadAll(stored, read).Some?
    ensures ReadAll(stored + [p], read) ==
            if read(p).None? then None else Some(ReadAll(stored, read).value + [read(p).value])
  {
    assert (stored + [p])[..|stored|] == stored;
  }

  /** What has been taken cannot be read, so neither can the whole. */
  lemma Unreadable<P, T>(wanted: Option<seq<P>>, taken: seq<P>, rest: Option<seq<P>>, read: P -> Option<T>)
    requires wanted == Prepend(taken, rest) && ReadAll(taken, read).None?
    ensures Read(wanted, read).None?
  {
    if rest.Some? {
      ReadConcat(taken, rest.value, read);
    }
  }

  /** `stored` are the payloads taken so far, and `results` what they read as. */
  ghost predicate Taken<P, T>(wanted: Option<seq<P>>, rest: seq<Record<P>>, answer: Answer, limit: nat,
                              stored: seq<P>, read: P -> Option<T>, results: seq<T>, done: bool)
  {
    && ReadAll(stored, read) == Some(results)
    && (if done then wanted == Some(stored) else Pending(wanted, rest, answer, limit, stored))
  }

  /** Where a block leaves the search: given up, finished, or ready for the next block. */
  ghost predicate Continues<P(!new), T>(wanted: Option<seq<P>>, rest: seq<Record<P>>, answer: Answer, limit: nat,
                                  read: P -> Option<T>, results: seq<T>, done: bool, failed: bool)
  {
    if failed then Read(wanted, read).None?
    else exists stored :: Taken(wanted, rest, answer, limit, stored, read, results, done)
  }

  /** One row: refused, given up, or its payload is read and put behind the others. */
  lemma RowStep<P(!new), T>(wanted: Option<seq<P>>, rest: seq<Record<P>>, answer: Answer, limit: nat, read: P -> Option<T>,
                      results: seq<T>)
    requires rest != [] && Continues(wanted, rest, answer, limit, read, results, false, false)
    ensures var matched, value := answer(rest[0].text), read(rest[0].payload);
            && (matched.None? || (matched.value && value.None?) ==> Read(wanted, read).None?)
            && (matched == Some(false) ==> Continues(wanted, rest[1..], answer, limit, read, results, false, false))
            && (matched == Some(true) && value.Some? ==>
                  Continues(wanted, rest[1..], answer, limit, read, results + [value.value],
                            |results + [value.value]| >= limit, false))
  {
    var stored :| Taken(wanted, rest, answer, limit, stored, read, results, false);
    PendingStep(wanted, rest, answer, limit, stored);
    var matched, p := answer(rest[0].text), rest[0].payload;
    ReadStep(stored, p, read);
    if matched == Some(false) {
      assert Taken(wanted, rest[1..], answer, limit, stored, read, results, false);
    } else if matched == Some(true) && read(p).Some? {
      var more := results + [read(p).value];
      assert Taken(wanted, rest[1..], answer, limit, stored + [p], read, more, |more| >= limit);
    } else if matched == Some(true) {
      var left := limit - |stored + [p]|;
      if left > 0 {
        Unreadable(wanted, stored + [p], FirstMatches(rest[1..], answer, left), read);
      } else {
        assert (stored + [p]) + [] == stored + [p];
        Unreadable(wanted, stored + [p], Some([]), read);
      }
    }
  }

  /** Once the search has ended, it does not matter what would follow. */
  lemma Ended<P(!new), T>(wanted: Option<seq<P>>, rest: seq<Record<P>>, other: seq<Record<P>>, answer: Answer, limit: nat,
                    read: P -> Option<T>, results: seq<T>)
    ensures Continues(wanted, rest, answer, limit, read, results, true, false) ==>
              Continues(wanted, other, answer, limit, read, results, true, false)
    ensures Read(wanted, read).None? ==> Continues(wanted, other, answer, limit, read, results, false, true)
  {
    if Continues(wanted, rest, answer, limit, read, results, true, false) {
      var stored :| Taken(wanted, rest, answer, limit, stored, read, results, true);
      assert Taken(wanted, other, answer, limit, stored, read, results, true);
    }
  }

  /** One block that is read: its rows are scanned in order. */
  method SearchRows<P(!new), T>(entries: seq<Row<P>>, rx: Regex, limit: nat, read: P -> Option<T>, found: seq<T>,
                          ghost wanted: Option<seq<P>>, ghost inside: seq<Record<P>>, ghost rest: seq<Record<P>>)
    returns (results: seq<T>, done: bool, failed: bool)
    requires Sound(rx) && RowsHold(entries, inside)
    requires Continues(wanted, inside + rest, Answers(rx), limit, read, found, false, false)
    ensures Continues(wanted, rest, Answers(rx), limit, read, results, done, failed)
  {
    assert UsablePrefix(rx.prefix);
    hide Sound, Continues, IsMatch;
    results, done, failed := found, false, false;
    assert inside[0..] == inside;
    for i := 0 to |entries|
      invariant !done && !failed
      invariant Continues(wanted, inside[i..] + rest, Answers(rx), limit, read, results, false, false)
    {
      ghost var here := inside[i..] + rest;
      assert here[0] == inside[i] && here[1..] == inside[i + 1..] + rest;
      RowStep(wanted, here, Answers(rx), limit, read, results);
      Ended(wanted, here, rest, Answers(rx), limit, read, results);
      var matched := IsMatch(rx, entries[i].text);
      if matched.None? { return results, false, true; }
      if matched.value {
        var value := read(entries[i].payload);
        if value.None? { return results, false, true; }
        results := results + [value.value];
        if |results| >= limit {
          Ended(wanted, here[1..], rest, Answers(rx), limit, read, results);
          return results, true, false;
        }
      }
    }
    assert inside[|entries|..] + rest == rest;
  }

  /** One block: skipped when the prefilter rejects its payload, read otherwise. */
  method SearchBlock<P(!new), T>(rows: seq<Row<P>>, blocks: seq<Block>, b: nat, rx: Regex, limit: nat, read: P -> Option<T>,
                           found: seq<T>, ghost wanted: Option<seq<P>>, ghost records: seq<Record<P>>)
    returns (results: seq<T>, done: bool, failed: bool)
    requires Sound(rx) && rows == RowsOf(records) && Tiles(blocks, records, |records|) && b < |blocks|
    requires Continues(wanted, Kept(records, blocks, rx.prefix, b), Answers(rx), limit, read, found, false, false)
    ensures Continues(wanted, Kept(records, blocks, rx.prefix, b + 1), Answers(rx), limit, read, results, done, failed)
  {
    assert UsablePrefix(rx.prefix);
    hide Sound, MayMatch, Continues, Kept, RowsHold;
    KeptAt(records, blocks, rx.prefix, b);
    hide Tiles;
    var block := blocks[b];
    ghost var rest := Kept(records, blocks, rx.prefix, b + 1);
    var may := MayMatchBytes(rx.prefix, block.payload);
    if !may {
      return found, false, false;
    }
    var entries := ReadRows(rows, block.first, block.last, records);
    results, done, failed :=
      SearchRows(entries, rx, limit, read, found, wanted, records[block.first..block.last + 1], rest);
  }

  /** `database_search`: the scan of the blocks that are read, its payloads read back; and with it the
      linear scan unless that one gives up on a record of a block that is not read. */
  method DatabaseSearch<P(!new), T>(rows: seq<Row<P>>, blocks: seq<Block>, rx: Regex, limit: nat, read: P -> Option<T>,
                              ghost records: seq<Record<P>>)
    returns (r: Option<seq<T>>)
    requires limit > 0 && Sound(rx)
    requires rows == RowsOf(records) && Tiles(blocks, records, |records|)
    ensures var kept := FirstMatches(Kept(records, blocks, rx.prefix, 0), Answers(rx), limit);
            && r == Read(kept, read)
            && SameUnlessUnread(FirstMatches(records, Answers(rx), limit), kept, records, blocks, rx)
    ensures FirstMatches(records, rx.native, limit).Some? ==> r == Read(FirstMatches(records, rx.native, limit), read)
  {
    AgreeingScans(records, rx.native, Answers(rx), limit);
    KeptIsEnough(records, blocks, rx, 0);
    assert records[0..] == records;
    ghost var kept := Kept(records, blocks, rx.prefix, 0);
    ghost var wanted := FirstMatches(kept, Answers(rx), limit);
    PendingEnds(kept, Answers(rx), limit, []);
    var results: seq<T> := [];
    assert Taken(wanted, kept, Answers(rx), limit, [], read, results, false);
    for b := 0 to |blocks|
      invariant Continues(wanted, Kept(records, blocks, rx.prefix, b), Answers(rx), limit, read, results, false, false)
    {
      var done, failed: bool;
      results, done, failed := SearchBlock(rows, blocks, b, rx, limit, read, results, wanted, records);
      if failed { return None; }
      if done { return Some(results); }
    }
    ghost var stored :| Taken(wanted, [], Answers(rx), limit, stored, read, results, false);
    assert stored + [] == stored;
    return Some(results);
  }

  /** Scanning what is stored and reading it back is scanning the records. */
  lemma {:induction false} ReadBack<T, P>(records: seq<Record<T>>, write: T -> P, read: P -> Option<T>, answer: Answer,
                                          left: nat)
    requires left > 0 && forall i :: 0 <= i < |records| ==> read(write(records[i].payload)) == Some(records[i].payload)
    ensures Read(FirstMatches(Stored(records, write), answer, left), read) == FirstMatches(records, answer, left)
  {
    if records != [] {
      var stored := Stored(records, write);
      assert stored[1..] == Stored(records[1..], write);
      var matched := answer(records[0].text);
      if matched.Some? && !(matched.value && left == 1) {
        ReadBack(records[1..], write, read, answer, if matched.value then left - 1 else left);
      }
      var p := stored[0].payload;
      ReadOne(p, read);
      if matched == Some(true) && left > 1 {
        var rest := FirstMatches(stored[1..], answer, left - 1);
        if rest.Some? {
          ReadConcat([p], rest.value, read);
        }
      }
    }
  }

  lemma ReadOne<P, T>(p: P, read: P -> Option<T>)
    ensures ReadAll([p], read) == if read(p).None? then None else Some([read(p).value])
  {
    assert [p][..0] == [];
    assert ReadAll([p][..0], read) == Some([]);
    if read(p).Some? {
      assert [] + [read(p).value] == [read(p).value];
    }
  }

  lemma StoredGivesUp<T, P>(records: seq<Record<T>>, write: T -> P, blocks: seq<Block>, rx: Regex)
    requires UsablePrefix(rx.prefix) && exists o: nat :: GivesUpUnread(Stored(records, write), blocks, rx, o)
    ensures exists o: nat :: GivesUpUnread(records, blocks, rx, o)
  {
    var o: nat :| GivesUpUnread(Stored(records, write), blocks, rx, o);
    assert GivesUpUnread(records, blocks, rx, o);
  }

  /** From bytecode to results: deriving the blocks and searching them with the analysed prefix
      finds what scanning the records finds, with the shortcut and with the bare engine. */
  method SearchDerived<T, P(!new)>(records: seq<Record<T>>, write: T -> P, read: P -> Option<T>, m: Machine,
                             native: Text -> Option<bool>, limit: nat, ghost other: Other)
    returns (r: Option<seq<T>>, ghost blocks: seq<Block>, ghost rx: Regex)
    requires limit > 0 && WellCompiled(m) && Faithful(native, m, other)
    requires forall i :: 0 <= i < |records| ==> read(write(records[i].payload)) == Some(records[i].payload)
    ensures Tiles(blocks, Stored(records, write), |records|) && Compiled(rx, m, other) && rx.native == native
    ensures UsablePrefix(rx.prefix)
    ensures r == Read(FirstMatches(Kept(Stored(records, write), blocks, rx.prefix, 0), Answers(rx), limit), read)
    ensures SameUnlessUnread(FirstMatches(records, Answers(rx), limit), r, records, blocks, rx)
    ensures FirstMatches(records, native, limit).Some? ==> r == FirstMatches(records, native, limit)
  {
    var rows, derived := Derive(records, write);
    var compiled := Compile(m, native, other);
    CompiledIsSound(compiled, m, other);
    blocks, rx := derived, compiled;
    r := DatabaseSearch(rows, derived, compiled, limit, read, Stored(records, write));
    ReadBack(records, write, read, Answers(rx), limit);
    ReadBack(records, write, read, native, limit);
    if exists o: nat :: GivesUpUnread(Stored(records, write), blocks, rx, o) {
      StoredGivesUp(records, write, blocks, rx);
    }
  }
}
