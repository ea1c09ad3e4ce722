/** Name decompression: `decode_domain_name` of src/dns/types.rs and section 4.1.4 of RFC 1035. */
module Decompress {
  import opened Bytes
  import opened Names

  datatype DecodeError = UnexpectedEof | InvalidPointer(target: nat) | InvalidLabel

  /** `Endless` stands for a call that never returns. */
  datatype Decoded = Name(name: bytes, end: nat) | Fail(error: DecodeError) | Endless

  /** The loop variables of `decode_domain_name`. */
  datatype Walk = Walk(pos: nat, jumped: bool, jumpPos: nat, result: bytes)

  datatype Step = Halt(outcome: Decoded) | Go(walk: Walk)

  /** `byte & 0xc0 == 0xc0`. */
  predicate IsPointer(b: byte) { b >= 0xC0 }

  /** `((byte & 0x3f) << 8) | next`. */
  function Target(data: bytes, pos: nat): nat
    requires pos + 1 < |data| && IsPointer(data[pos])
  {
    (data[pos] as int - 0xC0) * 0x100 + data[pos + 1]
  }

  /** One turn of the loop. */
  function Turn(data: bytes, offset: nat, w: Walk): Step {
    if w.pos >= |data| then Halt(Fail(UnexpectedEof))
    else
      var b := data[w.pos];
      if b == 0 then Halt(Name(w.result + [0], if w.jumped then w.jumpPos else w.pos + 1))
      else if IsPointer(b) then
        if w.pos + 1 >= |data| then Halt(Fail(UnexpectedEof))
        else if Target(data, w.pos) >= offset then Halt(Fail(InvalidPointer(Target(data, w.pos))))
        else Go(Walk(Target(data, w.pos), true, if w.jumped then w.jumpPos else w.pos + 2, w.result))
      else if b > MAX_LABEL then Halt(Fail(InvalidLabel))
      else
        var next := w.pos + 1 + b as int;
        if next > |data| then Halt(Fail(UnexpectedEof))
        else Go(Walk(next, w.jumped, w.jumpPos, w.result + data[w.pos..next]))
  }

  /** At most `turns` turns of the loop. */
  function Run(data: bytes, offset: nat, w: Walk, turns: nat): Decoded
    decreases turns
  {
    if turns == 0 then Endless
    else match Turn(data, offset, w)
      case Halt(outcome) => outcome
      case Go(w') => Run(data, offset, w', turns - 1)
  }

  lemma RunUnfold(data: bytes, offset: nat, w: Walk, turns: nat)
    requires Run(data, offset, w, turns) != Endless
    ensures turns > 0
    ensures match Turn(data, offset, w)
            case Halt(outcome) => Run(data, offset, w, turns) == outcome
            case Go(w') => Run(data, offset, w, turns) == Run(data, offset, w', turns - 1)
  {
  }

  function Start(offset: nat): Walk { Walk(offset, false, 0, []) }

  /** The call as a whole: one turn more than there are octets decides it (see `EndlessIsForever`). */
  function Decode(data: bytes, offset: nat): Decoded {
    Run(data, offset, Start(offset), |data| + 1)
  }

  // --- Exactly when the call returns ---

  /** The position after one turn; positions do not depend on the other loop variables. */
  function NextPos(data: bytes, offset: nat, pos: nat): Option<nat> {
    match Turn(data, offset, Walk(pos, false, 0, []))
    case Halt(_) => None
    case Go(w) => Some(w.pos)
  }

  /** The position at which turn number `k` starts, if the loop gets that far. */
  function Trail(data: bytes, offset: nat, pos: nat, k: nat): Option<nat>
    decreases k
  {
    if k == 0 then Some(pos)
    else match NextPos(data, offset, pos)
      case None => None
      case Some(next) => Trail(data, offset, next, k - 1)
  }

  lemma {:induction false} RunVsTrail(data: bytes, offset: nat, w: Walk, turns: nat)
    ensures Run(data, offset, w, turns) == Endless <==> Trail(data, offset, w.pos, turns).Some?
    decreases turns
  {
    if turns > 0 {
      match Turn(data, offset, w)
      case Halt(_) =>
      case Go(w') => RunVsTrail(data, offset, w', turns - 1);
    }
  }

  /** More turns never change an outcome. */
  lemma {:induction false} RunMonotone(data: bytes, offset: nat, w: Walk, m: nat, n: nat)
    requires m <= n && Run(data, offset, w, m) != Endless
    ensures Run(data, offset, w, n) == Run(data, offset, w, m)
    decreases m
  {
    match Turn(data, offset, w)
    case Halt(_) =>
    case Go(w') => RunMonotone(data, offset, w', m - 1, n - 1);
  }

  lemma {:induction false} TrailSplit(data: bytes, offset: nat, pos: nat, i: nat, j: nat)
    requires Trail(data, offset, pos, i).Some?
    ensures Trail(data, offset, pos, i + j) == Trail(data, offset, Trail(data, offset, pos, i).value, j)
    decreases i
  {
    if i > 0 { TrailSplit(data, offset, NextPos(data, offset, pos).value, i - 1, j); }
  }

  lemma TrailPrefix(data: bytes, offset: nat, pos: nat, i: nat, n: nat)
    requires i <= n && Trail(data, offset, pos, n).Some?
    ensures Trail(data, offset, pos, i).Some?
    decreases i
  {
    if i > 0 { TrailPrefix(data, offset, NextPos(data, offset, pos).value, i - 1, n - 1); }
  }

  /** Coming back to the same position means going round for ever. */
  lemma {:induction false} CycleGoesOn(data: bytes, offset: nat, pos: nat, period: nat, n: nat)
    requires period > 0 && Trail(data, offset, pos, period) == Some(pos)
    ensures Trail(data, offset, pos, n).Some?
    decreases n
  {
    if n <= period {
      TrailPrefix(data, offset, pos, n, period);
    } else {
      CycleGoesOn(data, offset, pos, period, n - period);
      TrailSplit(data, offset, pos, period, n - period);
    }
  }

  lemma {:induction false} Pigeonhole(s: seq<nat>, n: nat) returns (i: nat, j: nat)
    requires |s| > n && forall k :: 0 <= k < |s| ==> s[k] < n
    ensures i < j < |s| && s[i] == s[j]
    decreases n
  {
    assert s[0] < n;
    if m: nat :| m < |s| && s[m] == n - 1 {
      if m': nat :| m' < |s| && m' != m && s[m'] == n - 1 {
        i, j := if m < m' then m else m', if m < m' then m' else m;
      } else {
        i, j := Pigeonhole(s[..m] + s[m + 1..], n - 1);
        i, j := if i < m then i else i + 1, if j < m then j else j + 1;
      }
    } else {
      i, j := Pigeonhole(s, n - 1);
    }
  }

  /** Two different turns of the walk from `offset` start at the same position. */
  ghost predicate Revisits(data: bytes, offset: nat) {
    exists i: nat, j: nat :: i < j <= |data|
      && Trail(data, offset, offset, i).Some? && Trail(data, offset, offset, i) == Trail(data, offset, offset, j)
  }

  /** The call returns exactly when the walk over the message never revisits a position. */
  lemma EndlessIffRevisits(data: bytes, offset: nat)
    ensures Decode(data, offset) == Endless <==> Revisits(data, offset)
  {
    RunVsTrail(data, offset, Start(offset), |data| + 1);
    if Decode(data, offset) == Endless {
      forall k | 0 <= k <= |data| + 1 ensures Trail(data, offset, offset, k).Some? {
        TrailPrefix(data, offset, offset, k, |data| + 1);
      }
      var s := seq(|data| + 1, k requires 0 <= k <= |data| => Trail(data, offset, offset, k).value);
      forall k | 0 <= k < |s| ensures s[k] < |data| {
        TrailSplit(data, offset, offset, k, 1);
      }
      var i, j := Pigeonhole(s, |data|);
      assert Trail(data, offset, offset, i) == Trail(data, offset, offset, j);
    }
    if Revisits(data, offset) {
      var i: nat, j: nat :| i < j <= |data|
        && Trail(data, offset, offset, i).Some? && Trail(data, offset, offset, i) == Trail(data, offset, offset, j);
      RevisitsForever(data, offset, i, j, |data| + 1);
    }
  }

  lemma RevisitsForever(data: bytes, offset: nat, i: nat, j: nat, n: nat)
    requires i < j
    requires Trail(data, offset, offset, i).Some? && Trail(data, offset, offset, i) == Trail(data, offset, offset, j)
    ensures Trail(data, offset, offset, n).Some?
  {
    var p := Trail(data, offset, offset, i).value;
    TrailSplit(data, offset, offset, i, j - i);
    if n <= i {
      TrailPrefix(data, offset, offset, n, i);
    } else {
      CycleGoesOn(data, offset, p, j - i, n - i);
      TrailSplit(data, offset, offset, i, n - i);
    }
  }

  /** `Endless` really is non-termination, and any other outcome is the outcome of the loop. */
  lemma EndlessIsForever(data: bytes, offset: nat, turns: nat)
    ensures Decode(data, offset) == Endless ==> Run(data, offset, Start(offset), turns) == Endless
    ensures Run(data, offset, Start(offset), turns) != Endless ==>
              Run(data, offset, Start(offset), turns) == Decode(data, offset)
  {
    if Decode(data, offset) == Endless {
      EndlessIffRevisits(data, offset);
      var i: nat, j: nat :| i < j <= |data|
        && Trail(data, offset, offset, i).Some? && Trail(data, offset, offset, i) == Trail(data, offset, offset, j);
      RevisitsForever(data, offset, i, j, turns);
      RunVsTrail(data, offset, Start(offset), turns);
    } else if Run(data, offset, Start(offset), turns) != Endless {
      var m := if turns < |data| + 1 then turns else |data| + 1;
      var n := if turns < |data| + 1 then |data| + 1 else turns;
      RunMonotone(data, offset, Start(offset), m, n);
    }
  }

  /** The guard against the starting offset alone does not stop a loop: octets C0 00 C0 00 at 2. */
  lemma SelfPointerNeverReturns()
    ensures Decode([0xC0, 0, 0xC0, 0], 2) == Endless
  {
    var data: bytes := [0xC0, 0, 0xC0, 0];
    assert NextPos(data, 2, 2) == Some(0) && NextPos(data, 2, 0) == Some(0);
    assert Trail(data, 2, 2, 1) == Trail(data, 2, 0, 0) == Some(0);
    assert Trail(data, 2, 2, 2) == Trail(data, 2, 0, 1) == Trail(data, 2, 0, 0);
    EndlessIffRevisits(data, 2);
  }

  /** Every pointer met targets a position strictly before the start of the label run it ends. */
  predicate BackwardRuns(data: bytes, offset: nat, pos: nat, runStart: nat)
    requires runStart <= pos
    decreases runStart, |data| - pos
  {
    match Turn(data, offset, Walk(pos, false, 0, []))
    case Halt(_) => true
    case Go(w) =>
      if IsPointer(data[pos]) then w.pos < runStart && BackwardRuns(data, offset, w.pos, w.pos)
      else BackwardRuns(data, offset, w.pos, runStart)
  }

  lemma {:induction false} BackwardRunsStop(data: bytes, offset: nat, w: Walk, runStart: nat) returns (turns: nat)
    requires runStart <= w.pos && BackwardRuns(data, offset, w.pos, runStart)
    ensures Run(data, offset, w, turns) != Endless
    decreases runStart, |data| - w.pos
  {
    match Turn(data, offset, w)
    case Halt(_) => turns := 1;
    case Go(w') =>
      var rest := BackwardRunsStop(data, offset, w', if IsPointer(data[w.pos]) then w'.pos else runStart);
      turns := rest + 1;
  }

  /** Strictly backward pointers suffice, under the measure (run start, octets left). */
  lemma BackwardRunsReturn(data: bytes, offset: nat)
    requires BackwardRuns(data, offset, offset, offset)
    ensures Decode(data, offset) != Endless
  {
    var turns := BackwardRunsStop(data, offset, Start(offset), offset);
    EndlessIsForever(data, offset, turns);
  }

  lemma DecodeUnfold(data: bytes, offset: nat)
    ensures Decode(data, offset) == Run(data, offset, Start(offset), |data| + 1)
  {
  }

  /** The loop itself, on every input on which it returns. */
  method DecodeDomainName(data: bytes, offset: nat) returns (r: Decoded)
    requires Decode(data, offset) != Endless
    ensures r == Decode(data, offset)
  {
    hide Decode, Run;
    assert Run(data, offset, Start(offset), |data| + 1) == Decode(data, offset) by { DecodeUnfold(data, offset); }
    var result: bytes := [];
    var pos: nat, jumped, jumpPos: nat := offset, false, 0;
    ghost var turns: nat := |data| + 1;
    while true
      invariant Run(data, offset, Walk(pos, jumped, jumpPos, result), turns) == Decode(data, offset)
      decreases turns
    {
      RunUnfold(data, offset, Walk(pos, jumped, jumpPos, result), turns);
      if pos >= |data| { return Fail(UnexpectedEof); }
      var b := data[pos];
      if b == 0 {
        result := result + [0];
        pos := pos + 1;
        if !jumped { jumpPos := pos; }
        return Name(result, jumpPos);
      } else if IsPointer(b) {
        if pos + 1 >= |data| { return Fail(UnexpectedEof); }
        var ptr := Target(data, pos);
        if ptr >= offset { return Fail(InvalidPointer(ptr)); }
        if !jumped {
          jumpPos := pos + 2;
          jumped := true;
        }
        pos := ptr;
      } else {
        var len := b as int;
        if len > MAX_LABEL { return Fail(InvalidLabel); }
        pos := pos + 1;
        if pos + len > |data| { return Fail(UnexpectedEof); }
        assert result + data[pos - 1..pos + len] == result + [b] + data[pos..pos + len];
        result := result + [b] + data[pos..pos + len];
        pos := pos + len;
      }
      turns := turns - 1;
    }
  }

  // --- What it returns: the grammar of section 4.1.4 of RFC 1035 ---

  /**
   * The octets at `pos` spell `ls` in at most `k` steps: a sequence of labels ending in a zero octet,
   * a pointer, or labels ending with a pointer, where pointers lead before `offset`.
   */
  ghost predicate Spells(data: bytes, offset: nat, pos: nat, ls: Labels, k: nat)
    decreases k
  {
    && pos < |data|
    && if data[pos] == 0 then ls == []
       else if IsPointer(data[pos]) then
         k > 0 && pos + 1 < |data| && Target(data, pos) < offset
         && Spells(data, offset, Target(data, pos), ls, k - 1)
       else
         var next := pos + 1 + data[pos] as int;
         k > 0 && data[pos] <= MAX_LABEL && next <= |data|
         && ls != [] && ls[0] == data[pos + 1..next] && Spells(data, offset, next, ls[1..], k - 1)
  }

  /** Just past the first zero octet or pointer of the label run at `pos`. */
  function RunEnd(data: bytes, pos: nat): nat
    decreases |data| - pos
  {
    if pos >= |data| then pos
    else if data[pos] == 0 then pos + 1
    else if IsPointer(data[pos]) then pos + 2
    else RunEnd(data, pos + 1 + data[pos] as int)
  }

  ghost function EndFrom(data: bytes, w: Walk): nat {
    if w.jumped then w.jumpPos else RunEnd(data, w.pos)
  }

  lemma {:induction false} SpellsLabels(data: bytes, offset: nat, pos: nat, ls: Labels, k: nat)
    requires Spells(data, offset, pos, ls, k)
    ensures AreLabels(ls)
    decreases k
  {
    if data[pos] != 0 {
      if IsPointer(data[pos]) {
        SpellsLabels(data, offset, Target(data, pos), ls, k - 1);
      } else {
        SpellsLabels(data, offset, pos + 1 + data[pos] as int, ls[1..], k - 1);
        assert forall i :: 0 < i < |ls| ==> ls[i] == ls[1..][i - 1];
      }
    }
  }

  /** Copying one more label from the message extends the wire form by that label. */
  lemma CopyLabel(data: bytes, pos: nat, prefix: bytes, rest: Labels)
    requires AreLabels(rest) && pos < |data| && 1 <= data[pos] <= MAX_LABEL
    requires pos + 1 + data[pos] as int <= |data|
    ensures var next := pos + 1 + data[pos] as int;
            var ls := [data[pos + 1..next]] + rest;
            && AreLabels(ls) && prefix + data[pos..next] + Wire(rest) == prefix + Wire(ls)
  {
    var next := pos + 1 + data[pos] as int;
    WireCons(data[pos + 1..next], rest);
    assert data[pos..next] == [data[pos]] + data[pos + 1..next];
  }

  /** Soundness: a returned name is spelled by the message, octet for octet. */
  lemma {:induction false} RunSpells(data: bytes, offset: nat, w: Walk, turns: nat) returns (ls: Labels)
    requires Run(data, offset, w, turns).Name?
    ensures AreLabels(ls) && Spells(data, offset, w.pos, ls, turns)
    ensures Run(data, offset, w, turns) == Name(w.result + Wire(ls), EndFrom(data, w))
    decreases turns
  {
    hide Wire, Run;
    WireNil();
    RunUnfold(data, offset, w, turns);
    match Turn(data, offset, w)
    case Halt(_) => ls := [];
    case Go(w') =>
      var rest := RunSpells(data, offset, w', turns - 1);
      if IsPointer(data[w.pos]) {
        ls := rest;
      } else {
        var next := w.pos + 1 + data[w.pos] as int;
        ls := [data[w.pos + 1..next]] + rest;
        assert ls[1..] == rest;
        CopyLabel(data, w.pos, w.result, rest);
      }
  }

  /** Completeness: whatever the message spells is what the loop returns. */
  lemma {:induction false} SpellsRuns(data: bytes, offset: nat, w: Walk, ls: Labels, k: nat)
    requires Spells(data, offset, w.pos, ls, k) && AreLabels(ls)
    ensures Run(data, offset, w, k + 1) == Name(w.result + Wire(ls), EndFrom(data, w))
    decreases k
  {
    hide Wire;
    WireNil();
    match Turn(data, offset, w)
    case Halt(_) =>
    case Go(w') =>
      if IsPointer(data[w.pos]) {
        SpellsRuns(data, offset, w', ls, k - 1);
      } else {
        SpellsRuns(data, offset, w', ls[1..], k - 1);
        CopyLabel(data, w.pos, w.result, ls[1..]);
        assert ls == [ls[0]] + ls[1..];
      }
  }

  ghost predicate SpelledBy(data: bytes, offset: nat, ls: Labels) {
    exists k: nat :: Spells(data, offset, offset, ls, k)
  }

  /** `decode_domain_name` is exactly the recursive expansion of the name at `offset`. */
  lemma DecodeIffSpelled(data: bytes, offset: nat, name: bytes, end: nat)
    ensures Decode(data, offset) == Name(name, end) <==>
              exists ls :: AreLabels(ls) && SpelledBy(data, offset, ls)
                           && name == Wire(ls) && end == RunEnd(data, offset)
  {
    if Decode(data, offset) == Name(name, end) {
      var ls := RunSpells(data, offset, Start(offset), |data| + 1);
      assert SpelledBy(data, offset, ls);
    }
    if ls :| AreLabels(ls) && SpelledBy(data, offset, ls) && name == Wire(ls) && end == RunEnd(data, offset) {
      var k: nat :| Spells(data, offset, offset, ls, k);
      SpellsRuns(data, offset, Start(offset), ls, k);
      EndlessIsForever(data, offset, k + 1);
      assert [] + Wire(ls) == Wire(ls);
    }
  }

  lemma {:induction false} RunEndBounds(data: bytes, offset: nat, w: Walk, turns: nat)
    requires Run(data, offset, w, turns).Name? && !w.jumped
    ensures w.pos < RunEnd(data, w.pos) <= |data|
    decreases turns
  {
    match Turn(data, offset, w)
    case Halt(_) =>
    case Go(w') => if !IsPointer(data[w.pos]) { RunEndBounds(data, offset, w', turns - 1); }
  }

  /** Every name returned is pointer-free and closed by one root octet; parsing always advances. */
  lemma DecodedShape(data: bytes, offset: nat)
    requires Decode(data, offset).Name?
    ensures WellFormed(Decode(data, offset).name)
    ensures offset < Decode(data, offset).end <= |data|
  {
    var Name(name, end) := Decode(data, offset);
    DecodeIffSpelled(data, offset, name, end);
    var ls :| AreLabels(ls) && SpelledBy(data, offset, ls) && name == Wire(ls) && end == RunEnd(data, offset);
    UnwireWire(ls);
    RunEndBounds(data, offset, Start(offset), |data| + 1);
  }

  /** An uncompressed name decodes to itself wherever it stands. */
  lemma {:induction false} SpellsPlain(data: bytes, offset: nat, pos: nat, ls: Labels)
    requires AreLabels(ls) && pos + |Wire(ls)| <= |data| && data[pos..pos + |Wire(ls)|] == Wire(ls)
    ensures Spells(data, offset, pos, ls, |ls|) && RunEnd(data, pos) == pos + |Wire(ls)|
    decreases |ls|
  {
    PlainStep(data, pos, ls);
    hide Wire;
    if ls != [] { SpellsPlain(data, offset, pos + 1 + |ls[0]|, ls[1..]); }
  }

  /** One label of an uncompressed name inside the data. */
  lemma PlainStep(data: bytes, pos: nat, ls: Labels)
    requires AreLabels(ls) && pos + |Wire(ls)| <= |data| && data[pos..pos + |Wire(ls)|] == Wire(ls)
    ensures pos < |data|
    ensures ls == [] ==> data[pos] == 0 && |Wire(ls)| == 1
    ensures ls != [] ==>
              var next, rest := pos + 1 + |ls[0]|, Wire(ls[1..]);
              && data[pos] == |ls[0]| && next + |rest| == pos + |Wire(ls)|
              && data[pos + 1..next] == ls[0] && data[next..next + |rest|] == rest
  {
    if ls == [] {
      WireNil();
      hide Wire;
      Window(data, pos, Wire(ls), 1);
    } else {
      WireParts(ls);
      hide Wire;
      Window(data, pos, Wire(ls), LabelSpan(Wire(ls)));
    }
  }

  lemma Window(data: bytes, pos: nat, w: bytes, n: nat)
    requires pos + |w| <= |data| && data[pos..pos + |w|] == w && 1 <= n <= |w|
    ensures data[pos] == w[0] && data[pos + 1..pos + n] == w[1..n] && data[pos + n..pos + |w|] == w[n..]
  {
    forall k | 0 <= k < |w| ensures data[pos + k] == w[k] { assert data[pos..pos + |w|][k] == data[pos + k]; }
  }

  lemma DecodePlain(data: bytes, offset: nat, name: bytes)
    requires WellFormed(name) && offset + |name| <= |data| && data[offset..offset + |name|] == name
    ensures Decode(data, offset) == Name(name, offset + |name|)
  {
    hide *;
    WireUnwire(name);
    var ls := Unwire(name);
    SpellsPlain(data, offset, offset, ls);
    SpelledPlain(data, offset, ls);
    DecodeIffSpelled(data, offset, name, offset + |name|);
  }

  lemma SpelledPlain(data: bytes, offset: nat, ls: Labels)
    requires Spells(data, offset, offset, ls, |ls|)
    ensures SpelledBy(data, offset, ls)
  {
  }
}
