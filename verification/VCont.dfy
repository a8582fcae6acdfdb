/** handle_v_cont (src/server.c) and the choice of an action in darwin_resume (src/darwin-low.c). */
module VCont {
  import opened Memory
  import opened Options
  import opened Text
  import opened CLibrary

  const LOWER_C: byte := 99
  const UPPER_C: byte := 67
  const LOWER_S: byte := 115
  const UPPER_S: byte := 83

  /** "vCont" */
  const VCONT: seq<byte> := [118, 67, 111, 110, 116]

  datatype Resume = Resume(thread: int, leaveStopped: bool, step: bool, sig: int)

  /** target_signal_to_host_p and target_signal_to_host in one: the host's number, if there is one. */
  type Signals = int -> Option<int>

  const LEAVE_STOPPED: Resume := Resume(-1, true, false, 0)

  // ---------- what the parser computes ----------

  /** An action letter with its signal, and where its text ends. */
  datatype Item = Item(step: bool, sig: int, end: nat)

  /** The action at `p`. A letter C or S without digits reads as signal 0: the test of the
      source for a missing number compares with the wrong pointer and never fires. */
  function ParseItem(text: seq<byte>, p: nat, signals: Signals): (r: Option<Item>)
    requires p <= |text|
    ensures r.Some? ==> p < r.value.end <= |text|
  {
    var c := CharAt(text, p);
    if c == LOWER_S || c == LOWER_C then Some(Item(c == LOWER_S, 0, p + 1))
    else if c == UPPER_S || c == UPPER_C then
      var (sig, q) := Strtol(text, p + 1);
      var host := signals(sig);
      if host.None? then None else Some(Item(c == UPPER_S, host.value, q))
    else None
  }

  /** The state of the parsing loop: the cursor, the slots for named threads, the default. */
  datatype Cursor = Cursor(p: nat, slots: seq<Resume>, default: Resume)

  /** One round of the loop; None is a jump to `err`. */
  function RoundAt(text: seq<byte>, signals: Signals, c: Cursor): (r: Option<Cursor>)
    requires c.p < |text|
    ensures r.Some? ==> c.p < r.value.p <= |text|
  {
    var item := ParseItem(text, c.p + 1, signals);
    if item.None? then None else AfterItem(text, c, item.value)
  }

  /** What follows the letter decides where the action goes. A default that is not at the end
      of the text is dropped, since its slot is used again. */
  function AfterItem(text: seq<byte>, c: Cursor, item: Item): (r: Option<Cursor>)
    requires item.end <= |text|
    ensures r.Some? ==> item.end <= r.value.p <= |text|
  {
    var Item(step, sig, q) := item;
    if q == |text| then Some(Cursor(q, c.slots, Resume(-1, false, step, sig)))
    else if text[q] != COLON then Some(c.(p := q))
    else
      var (thread, r) := Strtol(text, q + 1);
      if r < |text| && text[r] != SEMICOLON then None
      else Some(Cursor(r, c.slots + [Resume(thread, false, step, sig)], c.default))
  }

  function ParseFrom(text: seq<byte>, signals: Signals, c: Cursor): Option<Cursor>
    requires c.p <= |text|
    decreases |text| - c.p
  {
    if c.p == |text| then Some(c)
    else
      var r := RoundAt(text, signals, c);
      if r.None? then None else ParseFrom(text, signals, r.value)
  }

  const START: Cursor := Cursor(|VCONT|, [], LEAVE_STOPPED)

  /** The array that darwin_resume is given, up to its terminator. */
  function Parse(text: seq<byte>, signals: Signals): Option<seq<Resume>>
    requires |text| >= |VCONT|
  {
    var r := ParseFrom(text, signals, START);
    if r.None? then None else Some(r.value.slots + [r.value.default])
  }

  /** How many semicolons there are. */
  function Semicolons(s: seq<byte>): nat {
    if s == [] then 0
    else Semicolons(s[..|s| - 1]) + if s[|s| - 1] == SEMICOLON then 1 else 0
  }

  lemma {:induction false} SemicolonsGrow(text: seq<byte>, from: nat, p: nat, q: nat)
    requires from <= p <= q <= |text|
    ensures Semicolons(text[from..p]) <= Semicolons(text[from..q])
    decreases q
  {
    if p < q {
      SemicolonsGrow(text, from, p, q - 1);
      assert text[from..q][..q - 1 - from] == text[from..q - 1];
    }
  }

  lemma {:induction false} NoSemicolons(text: seq<byte>, from: nat, p: nat, q: nat)
    requires from <= p <= q <= |text| && SEMICOLON !in text[p..q]
    ensures Semicolons(text[from..p]) == Semicolons(text[from..q])
    decreases q
  {
    if p < q {
      assert text[p..q][q - 1 - p] == text[q - 1];
      assert text[p..q - 1] == text[p..q][..q - 1 - p];
      NoSemicolons(text, from, p, q - 1);
      assert text[from..q][..q - 1 - from] == text[from..q - 1];
    }
  }

  // ---------- the two passes ----------

  /** strchr: the next `c` from `p` on. */
  method Strchr(text: seq<byte>, p: nat, c: byte) returns (q: Option<nat>)
    requires p <= |text|
    ensures q.Some? ==> p <= q.value < |text| && text[q.value] == c && c !in text[p..q.value]
    ensures q.None? ==> c !in text[p..]
  {
    var i := p;
    while i < |text|
      invariant p <= i <= |text| && c !in text[p..i]
    {
      if text[i] == c {
        return Some(i);
      }
      i := i + 1;
    }
    q := None;
  }

  /** The first pass: one for each semicolon. */
  method CountActions(text: seq<byte>) returns (n: nat)
    requires |text| > |VCONT| && text[|VCONT|] == SEMICOLON
    ensures n == Semicolons(text[|VCONT|..])
  {
    n := 0;
    var p := Some(|VCONT|);
    ghost var done := |VCONT|;
    while p.Some?
      invariant |VCONT| <= done <= |text| && n == Semicolons(text[|VCONT|..done])
      invariant p.Some? ==> p.value == done < |text| && text[done] == SEMICOLON
      invariant p.None? ==> SEMICOLON !in text[done..]
      decreases p.Some?, |text| - done
    {
      n := n + 1;
      assert text[|VCONT|..done + 1][..done - |VCONT|] == text[|VCONT|..done];
      p := Strchr(text, p.value + 1, SEMICOLON);
      if p.Some? {
        NoSemicolons(text, |VCONT|, done + 1, p.value);
        done := p.value;
      } else {
        done := done + 1;
      }
    }
    assert text[done..|text|] == text[done..];
    NoSemicolons(text, |VCONT|, done, |text|);
    assert text[|VCONT|..|text|] == text[|VCONT|..];
  }

  /** The head of an action: its letter and signal, stored in the slot. */
  method ParseLetter(text: seq<byte>, start: nat, signals: Signals, info: array<Resume>, i: nat)
    returns (ok: bool, p: nat)
    requires start <= |text| && i < info.Length
    modifies info
    ensures ok == ParseItem(text, start, signals).Some?
    ensures ok ==> var item := ParseItem(text, start, signals).value;
                   p == item.end && info[i] == Resume(old(info[i].thread), false, item.step, item.sig)
    ensures forall k :: 0 <= k < info.Length && k != i ==> info[k] == old(info[k])
  {
    p := start;
    var c := CharAt(text, p);
    info[i] := info[i].(leaveStopped := false);
    if c == LOWER_S || c == UPPER_S {
      info[i] := info[i].(step := true);
    } else if c == LOWER_C || c == UPPER_C {
      info[i] := info[i].(step := false);
    } else {
      return false, p;
    }
    if c == UPPER_S || c == UPPER_C {
      var (sig, q) := Strtol(text, p + 1);
      p := q;
      if signals(sig).None? {
        return false, p;
      }
      info[i] := info[i].(sig := signals(sig).value);
    } else {
      info[i] := info[i].(sig := 0);
      p := p + 1;
    }
    ok := true;
  }

  /** The slot index never exceeds the number of semicolons behind the cursor, and stays below
      it unless the cursor is at the next semicolon or at the end. */
  predicate Bounded(text: seq<byte>, p: nat, i: nat) {
    && |VCONT| <= p <= |text|
    && i <= Semicolons(text[|VCONT|..p])
    && (p < |text| && text[p] != SEMICOLON ==> i < Semicolons(text[|VCONT|..p]))
  }

  lemma BoundedStep(text: seq<byte>, p: nat, q: nat, i: nat)
    requires Bounded(text, p, i) && p < q <= |text|
    ensures Bounded(text, q, i)
    ensures q == |text| || text[q] == SEMICOLON ==> Bounded(text, q, i + 1)
    ensures i < Semicolons(text[|VCONT|..])
  {
    assert text[|VCONT|..p + 1][..p - |VCONT|] == text[|VCONT|..p];
    SemicolonsGrow(text, |VCONT|, p + 1, q);
    SemicolonsGrow(text, |VCONT|, q, |text|);
    assert text[|VCONT|..|text|] == text[|VCONT|..];
  }

  /** The tail of a round: the thread, if one is named. */
  method ParseThread(text: seq<byte>, info: array<Resume>, i: nat, default: Resume,
                     ghost c: Cursor, ghost item: Item, q: nat)
    returns (ok: bool, p: nat, i': nat, default': Resume)
    requires i < info.Length && q == item.end <= |text|
    requires c.slots == info[..i] && c.default == default
    requires !info[i].leaveStopped && info[i].step == item.step && info[i].sig == item.sig
    modifies info
    ensures ok ==> p <= |text| && i <= i' <= i + 1 && i' <= info.Length
    ensures ok && i' == i + 1 ==> p == |text| || text[p] == SEMICOLON
    ensures AfterItem(text, c, item) == if ok then Some(Cursor(p, info[..i'], default')) else None
  {
    p, i', default', ok := q, i, default, true;
    if q == |text| {
      info[i] := info[i].(thread := -1);
      default' := info[i];
      assert info[..i] == c.slots;
    } else if text[q] == COLON {
      var (thread, r) := Strtol(text, q + 1);
      info[i] := info[i].(thread := thread);
      p := r;
      if r < |text| && text[r] != SEMICOLON {
        return false, p, i', default';
      }
      assert info[..i + 1] == c.slots + [info[i]];
      i' := i + 1;
    }
  }

  /** One round of the parsing loop. */
  method ParseRound(text: seq<byte>, p: nat, signals: Signals, info: array<Resume>, i: nat, default: Resume)
    returns (ok: bool, p': nat, i': nat, default': Resume)
    requires Bounded(text, p, i) && p < |text| && info.Length > Semicolons(text[|VCONT|..])
    requires i < info.Length
    modifies info
    ensures ok ==> i' < info.Length && Bounded(text, p', i')
    ensures RoundAt(text, signals, Cursor(p, old(info[..i]), default)) ==
            if ok then Some(Cursor(p', info[..i'], default')) else None
  {
    hide ParseItem, AfterItem, Bounded;
    var q;
    ok, q := ParseLetter(text, p + 1, signals, info, i);
    if !ok {
      return ok, p, i, default;
    }
    assert info[..i] == old(info[..i]);
    ghost var item := ParseItem(text, p + 1, signals).value;
    ok, p', i', default' := ParseThread(text, info, i, default, Cursor(p, info[..i], default), item, q);
    if ok {
      BoundedStep(text, p, p', i);
    }
  }

  /** The second pass fills the array that the first one sized; the slot index stays within it
      on every text, however malformed. */
  method ParseActions(text: seq<byte>, signals: Signals) returns (ok: bool, info: array<Resume>, n: nat, i: nat)
    requires |text| > |VCONT| && text[|VCONT|] == SEMICOLON
    ensures fresh(info) && info.Length == n + 1 && n == Semicolons(text[|VCONT|..])
    ensures ok == Parse(text, signals).Some?
    ensures ok ==> i <= n && info[..i + 1] == Parse(text, signals).value
  {
    n := CountActions(text);
    info := new Resume[n + 1](_ => LEAVE_STOPPED);
    var default, p := LEAVE_STOPPED, |VCONT|;
    i := 0;
    ok := true;
    assert Bounded(text, p, 0);
    while p < |text|
      invariant Bounded(text, p, i) && i <= n
      invariant ParseFrom(text, signals, START) == ParseFrom(text, signals, Cursor(p, info[..i], default))
      decreases |text| - p
    {
      ok, p, i, default := ParseRound(text, p, signals, info, i, default);
      if !ok {
        return;
      }
    }
    info[i] := default;
    assert info[..i + 1] == info[..i] + [default];
    ok := true;
  }

  // ---------- darwin_resume ----------

  /** A list of slots that ends in one for every thread. */
  predicate Terminated(slots: seq<Resume>) {
    slots != [] && slots[|slots| - 1].thread == -1
  }

  /** The slot that applies to a process: the first that names it or every thread. */
  function Choose(slots: seq<Resume>, pid: int): (r: Resume)
    requires Terminated(slots)
    ensures r in slots && (r.thread == pid || r.thread == -1)
  {
    if slots[0].thread == -1 || slots[0].thread == pid then slots[0] else Choose(slots[1..], pid)
  }

  lemma {:induction false} ChooseAt(slots: seq<Resume>, pid: int, k: nat)
    requires Terminated(slots) && k < |slots|
    requires slots[k].thread == pid || slots[k].thread == -1
    requires forall j :: 0 <= j < k ==> slots[j].thread != pid && slots[j].thread != -1
    ensures Choose(slots, pid) == slots[k]
  {
    if k > 0 {
      ChooseAt(slots[1..], pid, k - 1);
    }
  }

  /** The scan of darwin_resume; it never passes the terminator. */
  method SelectAction(info: array<Resume>, ghost n: nat, pid: int) returns (step: bool, sig: int)
    requires n <= info.Length && Terminated(info[..n])
    ensures var r := Choose(info[..n], pid); step == r.step && sig == r.sig
  {
    step, sig := false, 0;
    var i := 0;
    while info[i].thread != -1
      invariant 0 <= i < n
      invariant forall j :: 0 <= j < i ==> info[j].thread != pid && info[j].thread != -1
      decreases n - i
    {
      if info[i].thread == pid {
        step, sig := info[i].step, info[i].sig;
        break;
      }
      assert i != n - 1;
      i := i + 1;
    }
    ChooseAt(info[..n], pid, i);
    if info[i].thread == -1 {
      step, sig := info[i].step, info[i].sig;
    }
  }

  // ---------- what a packet means ----------

  /** The text of an action: s or c, or S or C and the digits of a signal, which may be missing. */
  datatype Act = Act(letter: byte, digits: seq<byte>)

  /** An action and the thread it is for: a sign and digits, or nothing at all. */
  datatype Named = Named(act: Act, negative: bool, digits: seq<byte>)

  predicate Known(a: Act, signals: Signals) {
    && AllHex(a.digits)
    && if a.letter in {LOWER_S, LOWER_C} then a.digits == []
       else a.letter in {UPPER_S, UPPER_C} && HexValue(a.digits) <= LONG_MAX && signals(HexValue(a.digits)).Some?
  }

  predicate InRange(n: Named) {
    && AllHex(n.digits) && (n.negative ==> n.digits != [])
    && HexValue(n.digits) <= if n.negative then -LONG_MIN else LONG_MAX
  }

  function Thread(n: Named): int
    requires InRange(n)
  {
    if n.negative then 0 - HexValue(n.digits) else HexValue(n.digits)
  }

  predicate Steps(a: Act) {
    a.letter == LOWER_S || a.letter == UPPER_S
  }

  /** The host's number of the signal to deliver. */
  function HostSig(a: Act, signals: Signals): int
    requires Known(a, signals)
  {
    if a.letter in {LOWER_S, LOWER_C} then 0 else signals(HexValue(a.digits)).value
  }

  function PrintAct(a: Act): seq<byte> {
    [a.letter] + a.digits
  }

  function PrintNamed(n: Named): seq<byte> {
    [SEMICOLON] + PrintAct(n.act) + ([COLON] + (if n.negative then [MINUS] else []) + n.digits)
  }

  /** An item of a packet: an action for one thread, or for all of them. */
  datatype Wish = ForThread(n: Named) | ForAll(act: Act)

  function PrintWish(w: Wish): seq<byte> {
    match w
    case ForThread(n) => PrintNamed(n)
    case ForAll(a) => [SEMICOLON] + PrintAct(a)
  }

  /** The items in any order, with actions for all threads anywhere. */
  function PrintWishes(ws: seq<Wish>): seq<byte> {
    if ws == [] then [] else PrintWish(ws[0]) + PrintWishes(ws[1..])
  }

  function Slot(a: Act, thread: int, signals: Signals): Resume
    requires Known(a, signals)
  {
    Resume(thread, false, Steps(a), HostSig(a, signals))
  }

  predicate Wellformed(w: Wish, signals: Signals) {
    match w
    case ForThread(n) => Known(n.act, signals) && InRange(n)
    case ForAll(a) => Known(a, signals)
  }

  predicate Sound(ws: seq<Wish>, signals: Signals) {
    forall i :: 0 <= i < |ws| ==> Wellformed(ws[i], signals)
  }

  lemma ItemRoundTrip(text: seq<byte>, before: seq<byte>, a: Act, rest: seq<byte>, signals: Signals, item: Item)
    requires Known(a, signals) && text == before + [a.letter] + a.digits + rest
    requires rest != [] ==> rest[0] in {COLON, SEMICOLON}
    requires item == Item(Steps(a), HostSig(a, signals), |before| + 1 + |a.digits|)
    ensures ParseItem(text, |before|, signals) == Some(item)
  {
    NumeralReads(text, before + [a.letter], a.digits, rest, false, |before| + 1);
  }

  /** A number, or none, in front of ':' or ';' or the end. */
  lemma NumeralReads(text: seq<byte>, lead: seq<byte>, digits: seq<byte>, rest: seq<byte>, negative: bool, from: nat)
    requires AllHex(digits) && (negative ==> digits != [] && lead != [] && lead[|lead| - 1] == MINUS)
    requires text == lead + digits + rest && (rest != [] ==> rest[0] in {COLON, SEMICOLON})
    requires from == if negative then |lead| - 1 else |lead|
    requires HexValue(digits) <= if negative then -LONG_MIN else LONG_MAX
    ensures Strtol(text, from).0 == if negative then 0 - HexValue(digits) else HexValue(digits)
    ensures Strtol(text, from).1 == |lead| + |digits|
  {
    if digits != [] {
      StrtolReads(text, lead, digits, rest, negative, from);
    }
  }

  lemma ThreadRoundTrip(text: seq<byte>, c: Cursor, item: Item, thread: int, end: nat)
    requires item.end < |text| && text[item.end] == COLON
    requires Strtol(text, item.end + 1).0 == thread && Strtol(text, item.end + 1).1 == end
    requires end == |text| || text[end] == SEMICOLON
    ensures AfterItem(text, c, item) ==
            Some(Cursor(end, c.slots + [Resume(thread, false, item.step, item.sig)], c.default))
  {}

  /** The two ways of cutting up a printed action that the proof below needs. */
  lemma NamedParts(before: seq<byte>, n: Named, rest: seq<byte>)
    ensures var sign := if n.negative then [MINUS] else [];
            var text := before + PrintNamed(n) + rest;
            var head := before + [SEMICOLON] + [n.act.letter] + n.act.digits + [COLON];
            && text == before + [SEMICOLON] + [n.act.letter] + n.act.digits + ([COLON] + sign + n.digits + rest)
            && text == head + sign + n.digits + rest
            && text[|head| - 1] == COLON && |before + PrintNamed(n)| == |head| + |sign| + |n.digits|
            && text[|before + PrintNamed(n)|..] == rest
  {}

  lemma RoundFrom(text: seq<byte>, signals: Signals, c: Cursor, item: Item, next: Cursor)
    requires c.p < |text| && item.end <= |text|
    requires ParseItem(text, c.p + 1, signals) == Some(item) && AfterItem(text, c, item) == Some(next)
    ensures RoundAt(text, signals, c) == Some(next)
  {}

  lemma NamedItem(text: seq<byte>, before: seq<byte>, n: Named, rest: seq<byte>, signals: Signals, item: Item)
    requires Known(n.act, signals) && text == before + PrintNamed(n) + rest
    requires item == Item(Steps(n.act), HostSig(n.act, signals), |before| + 2 + |n.act.digits|)
    ensures ParseItem(text, |before| + 1, signals) == Some(item)
    ensures item.end < |text| && text[item.end] == COLON
  {
    NamedParts(before, n, rest);
    var sign := if n.negative then [MINUS] else [];
    var lead, tail := before + [SEMICOLON], [COLON] + sign + n.digits + rest;
    assert |lead| == |before| + 1;
    ItemRoundTrip(text, lead, n.act, tail, signals, item);
  }

  lemma NamedThread(text: seq<byte>, before: seq<byte>, n: Named, rest: seq<byte>, c: Cursor, item: Item)
    requires InRange(n) && text == before + PrintNamed(n) + rest
    requires rest != [] ==> rest[0] == SEMICOLON
    requires item.end == |before| + 2 + |n.act.digits| < |text| && text[item.end] == COLON
    ensures AfterItem(text, c, item) ==
            Some(Cursor(|before + PrintNamed(n)|, c.slots + [Resume(Thread(n), false, item.step, item.sig)], c.default))
  {
    var end := |before + PrintNamed(n)|;
    assert Strtol(text, item.end + 1).0 == Thread(n) && Strtol(text, item.end + 1).1 == end
           && text[end..] == rest by {
      hide AfterItem, Strtol;
      NamedParts(before, n, rest);
      var sign := if n.negative then [MINUS] else [];
      var head := before + [SEMICOLON] + [n.act.letter] + n.act.digits + [COLON];
      NumeralReads(text, head + sign, n.digits, rest, n.negative, item.end + 1);
    }
    hide PrintNamed, Strtol, Thread, InRange;
    assert end < |text| ==> text[end] == text[end..][0];
    ThreadRoundTrip(text, c, item, Thread(n), end);
  }

  /** A printed action with its thread takes one round and fills one slot. */
  lemma RoundOfNamed(text: seq<byte>, before: seq<byte>, n: Named, rest: seq<byte>, signals: Signals, c: Cursor)
    requires Known(n.act, signals) && InRange(n) && c.p == |before|
    requires text == before + PrintNamed(n) + rest
    requires rest != [] ==> rest[0] == SEMICOLON
    ensures RoundAt(text, signals, c) ==
            Some(Cursor(|before + PrintNamed(n)|, c.slots + [Slot(n.act, Thread(n), signals)], c.default))
  {
    var item := Item(Steps(n.act), HostSig(n.act, signals), |before| + 2 + |n.act.digits|);
    hide PrintNamed, AfterItem, ParseItem, Thread, Known, InRange, HostSig, Steps;
    NamedItem(text, before, n, rest, signals, item);
    NamedThread(text, before, n, rest, c, item);
  }

  lemma RoundOfDefault(text: seq<byte>, before: seq<byte>, a: Act, signals: Signals, c: Cursor)
    requires Known(a, signals) && c.p == |before| && text == before + ([SEMICOLON] + PrintAct(a))
    ensures RoundAt(text, signals, c) == Some(Cursor(|text|, c.slots, Slot(a, -1, signals)))
  {
    assert text == before + [SEMICOLON] + [a.letter] + a.digits + [];
    var item := Item(Steps(a), HostSig(a, signals), |before| + 2 + |a.digits|);
    ItemRoundTrip(text, before + [SEMICOLON], a, [], signals, item);
  }

  /** An action for all threads that another item follows leaves no trace. */
  lemma RoundOfDropped(text: seq<byte>, before: seq<byte>, a: Act, rest: seq<byte>, signals: Signals, c: Cursor)
    requires Known(a, signals) && c.p == |before| && rest != [] && rest[0] == SEMICOLON
    requires text == before + ([SEMICOLON] + PrintAct(a)) + rest
    ensures RoundAt(text, signals, c) == Some(c.(p := |before + ([SEMICOLON] + PrintAct(a))|))
  {
    var lead, end := before + [SEMICOLON], |before| + 2 + |a.digits|;
    assert text == lead + [a.letter] + a.digits + rest;
    assert text[end] == rest[0];
    var item := Item(Steps(a), HostSig(a, signals), end);
    ItemRoundTrip(text, lead, a, rest, signals, item);
    RoundFrom(text, signals, c, item, c.(p := end));
  }

  /** The slots that the items fill: one for each action that names a thread. */
  function Slots(ws: seq<Wish>, signals: Signals): seq<Resume>
    requires Sound(ws, signals)
  {
    if ws == [] then []
    else
      (match ws[0]
       case ForThread(n) => [Slot(n.act, Thread(n), signals)]
       case ForAll(_) => [])
      + Slots(ws[1..], signals)
  }

  /** The default: the last item, if it is for all threads. */
  function Default(ws: seq<Wish>, signals: Signals, otherwise: Resume): Resume
    requires Sound(ws, signals)
  {
    if ws != [] && ws[|ws| - 1].ForAll? then Slot(ws[|ws| - 1].act, -1, signals) else otherwise
  }

  /** The cursor at the end of the packet. */
  function AtEnd(text: seq<byte>, ws: seq<Wish>, signals: Signals, c: Cursor): Cursor
    requires Sound(ws, signals)
  {
    Cursor(|text|, c.slots + Slots(ws, signals), Default(ws, signals, c.default))
  }

  lemma WishesGoOn(ws: seq<Wish>)
    requires ws != []
    ensures PrintWishes(ws) != [] && PrintWishes(ws)[0] == SEMICOLON
  {
    assert PrintWish(ws[0])[0] == SEMICOLON;
  }

  /** The round of the first item. */
  lemma RoundOfWish(text: seq<byte>, before: seq<byte>, ws: seq<Wish>, signals: Signals, c: Cursor)
    requires ws != [] && Sound(ws, signals) && c.p == |before|
    requires text == before + PrintWish(ws[0]) + PrintWishes(ws[1..])
    ensures RoundAt(text, signals, c) ==
            Some(Cursor(|before + PrintWish(ws[0])|, c.slots + Slots([ws[0]], signals),
                        if |ws| == 1 then Default(ws, signals, c.default) else c.default))
  {
    hide RoundAt;
    var rest := PrintWishes(ws[1..]);
    if |ws| > 1 {
      WishesGoOn(ws[1..]);
    }
    match ws[0]
    case ForThread(n) =>
      RoundOfNamed(text, before, n, rest, signals, c);
      assert Slots([ws[0]], signals) == [Slot(n.act, Thread(n), signals)];
    case ForAll(a) =>
      assert c.slots + Slots([ws[0]], signals) == c.slots;
      if |ws| == 1 {
        assert before + PrintWish(ws[0]) + [] == before + PrintWish(ws[0]);
        RoundOfDefault(text, before, a, signals, c);
      } else {
        RoundOfDropped(text, before, a, rest, signals, c);
      }
  }

  /** What the parser makes of every well-formed packet. */
  lemma {:induction false} ParseOfPrinted(text: seq<byte>, before: seq<byte>, ws: seq<Wish>, signals: Signals, c: Cursor)
    requires Sound(ws, signals) && c.p == |before| && text == before + PrintWishes(ws)
    ensures ParseFrom(text, signals, c) == Some(AtEnd(text, ws, signals, c))
    decreases |ws|
  {
    hide RoundAt, PrintWish;
    if ws == [] {
      assert text == before && c.slots + [] == c.slots;
    } else {
      var printed, rest := PrintWish(ws[0]), PrintWishes(ws[1..]);
      Concat3(before, printed, rest);
      RoundOfWish(text, before, ws, signals, c);
      var next := RoundAt(text, signals, c).value;
      ParseOfPrinted(text, before + printed, ws[1..], signals, next);
      Concat3(c.slots, Slots([ws[0]], signals), Slots(ws[1..], signals));
      assert Slots([ws[0]], signals) + Slots(ws[1..], signals) == Slots(ws, signals);
    }
  }

  // ---------- what the process is given, and what was asked for it ----------

  function ActOf(w: Wish): Act {
    match w
    case ForThread(n) => n.act
    case ForAll(a) => a
  }

  predicate Names(n: Named, pid: int)
    requires InRange(n)
  {
    Thread(n) == pid || Thread(n) == -1
  }

  /** The action that darwin_resume gives a process: the first that names it or everything (-1),
      else the last one if it is for all threads, else to continue without a signal (None). */
  function Given(ws: seq<Wish>, signals: Signals, pid: int): (r: Option<Act>)
    requires Sound(ws, signals)
    ensures r.Some? ==> Known(r.value, signals)
  {
    if ws == [] then None
    else
      match ws[0]
      case ForThread(n) => if Names(n, pid) then Some(n.act) else Given(ws[1..], signals, pid)
      case ForAll(a) => if |ws| == 1 then Some(a) else Given(ws[1..], signals, pid)
  }

  /** The leftmost item that applies to a process, or the number of items. */
  function Leftmost(ws: seq<Wish>, signals: Signals, pid: int): (i: nat)
    requires Sound(ws, signals)
    ensures i <= |ws|
  {
    if ws == [] || ws[0].ForAll? || Names(ws[0].n, pid) then 0 else 1 + Leftmost(ws[1..], signals, pid)
  }

  /** What the protocol promises a process: the leftmost action that applies to it. */
  function Wanted(ws: seq<Wish>, signals: Signals, pid: int): (r: Option<Act>)
    requires Sound(ws, signals)
    ensures r.Some? ==> Known(r.value, signals)
  {
    var i := Leftmost(ws, signals, pid);
    if i < |ws| then Some(ActOf(ws[i])) else None
  }

  /** Whether to step, and the signal. */
  function Effect(wanted: Option<Act>, signals: Signals): (bool, int)
    requires wanted.Some? ==> Known(wanted.value, signals)
  {
    match wanted
    case None => (false, 0)
    case Some(a) => (Steps(a), HostSig(a, signals))
  }

  /** The slot does what was asked. */
  predicate Obeys(r: Resume, wanted: Option<Act>, signals: Signals)
    requires wanted.Some? ==> Known(wanted.value, signals)
  {
    (r.step, r.sig) == Effect(wanted, signals)
  }

  lemma {:induction false} ChooseGiven(ws: seq<Wish>, last: Resume, signals: Signals, pid: int)
    requires Sound(ws, signals) && last == Default(ws, signals, LEAVE_STOPPED)
    ensures Obeys(Choose(Slots(ws, signals) + [last], pid), Given(ws, signals, pid), signals)
    decreases |ws|
  {
    var all := Slots(ws, signals) + [last];
    if ws == [] {
      assert all == [last];
    } else {
      var later := Slots(ws[1..], signals) + [last];
      if ws[0].ForThread? {
        assert all == [Slot(ws[0].n.act, Thread(ws[0].n), signals)] + later;
        assert all[1..] == later;
      } else {
        assert all == later;
      }
      if |ws| > 1 {
        ChooseGiven(ws[1..], last, signals, pid);
      } else {
        assert later == [last];
      }
    }
  }

  /** A default in front of other items is dropped, so the process gets what it asked for
      exactly when the leftmost item for it is not such a default, or the items after the
      default come to the same. */
  predicate Respected(ws: seq<Wish>, signals: Signals, pid: int)
    requires Sound(ws, signals)
  {
    var i := Leftmost(ws, signals, pid);
    i < |ws| - 1 && ws[i].ForAll? ==>
      Effect(Some(ws[i].act), signals) == Effect(Given(ws[i + 1..], signals, pid), signals)
  }

  lemma {:induction false} GivenIsWantedIff(ws: seq<Wish>, signals: Signals, pid: int)
    requires Sound(ws, signals)
    ensures Effect(Given(ws, signals, pid), signals) == Effect(Wanted(ws, signals, pid), signals)
            <==> Respected(ws, signals, pid)
    decreases |ws|
  {
    if ws != [] && ws[0].ForThread? && !Names(ws[0].n, pid) {
      var later, i := ws[1..], Leftmost(ws[1..], signals, pid);
      GivenIsWantedIff(later, signals, pid);
      assert i < |later| ==> later[i] == ws[i + 1] && later[i + 1..] == ws[i + 2..];
    } else if ws != [] {
      assert ws[0 + 1..] == ws[1..];
    }
  }

  /** For every well-formed packet: darwin_resume gives each process the action `Given`, which is
      the one it was asked for if and only if the order is `Respected`. */
  lemma VContObeysIff(ws: seq<Wish>, signals: Signals, pid: int)
    requires Sound(ws, signals)
    ensures var slots := Parse(VCONT + PrintWishes(ws), signals);
            && slots == Some(Slots(ws, signals) + [Default(ws, signals, LEAVE_STOPPED)])
            && Terminated(slots.value)
            && Obeys(Choose(slots.value, pid), Given(ws, signals, pid), signals)
            && (Obeys(Choose(slots.value, pid), Wanted(ws, signals, pid), signals) <==> Respected(ws, signals, pid))
  {
    ParseOfPrinted(VCONT + PrintWishes(ws), VCONT, ws, signals, START);
    assert [] + Slots(ws, signals) == Slots(ws, signals);
    ChooseGiven(ws, Default(ws, signals, LEAVE_STOPPED), signals, pid);
    GivenIsWantedIff(ws, signals, pid);
  }

  /** In particular when an action for all threads comes last, if there is one. */
  lemma {:induction false} DefaultLast(ws: seq<Wish>, signals: Signals, pid: int)
    requires Sound(ws, signals) && forall i :: 0 <= i < |ws| - 1 ==> ws[i].ForThread?
    ensures Respected(ws, signals, pid)
  {}

  lemma VContMeaning(ws: seq<Wish>, signals: Signals, pid: int)
    requires Sound(ws, signals) && forall i :: 0 <= i < |ws| - 1 ==> ws[i].ForThread?
    ensures var slots := Parse(VCONT + PrintWishes(ws), signals);
            slots.Some? && Terminated(slots.value)
            && Obeys(Choose(slots.value, pid), Wanted(ws, signals, pid), signals)
  {
    DefaultLast(ws, signals, pid);
    VContObeysIff(ws, signals, pid);
  }

  /** vCont;s;c:1 asks every thread but 1 to step, and process 2 continues. */
  lemma DefaultDropped(signals: Signals)
    ensures var ws := [ForAll(Act(LOWER_S, [])), ForThread(Named(Act(LOWER_C, []), false, [DIGIT_0 + 1]))];
            && Sound(ws, signals) && Wanted(ws, signals, 2) == Some(Act(LOWER_S, []))
            && var slots := Parse(VCONT + PrintWishes(ws), signals);
               slots.Some? && Terminated(slots.value) && !Choose(slots.value, 2).step
  {
    hide Parse, PrintWishes, Slots, Choose;
    var n := Named(Act(LOWER_C, []), false, [DIGIT_0 + 1]);
    var ws := [ForAll(Act(LOWER_S, [])), ForThread(n)];
    assert n.digits[..0] == [] && HexValue(n.digits) == 1;
    assert ws[1..] == [ForThread(n)] && ws[1..][1..] == [];
    assert Given(ws[1..], signals, 2) == None;
    VContObeysIff(ws, signals, 2);
  }

  // ---------- missing numbers ----------

  /** strtol finds a number. */
  predicate NumberAt(text: seq<byte>, p: nat) {
    p <= |text| && Strtol(text, p).1 != p
  }

  /** A C or S without a number is signal 0, and is rejected only where the host has no signal 0. */
  lemma MissingSignal(text: seq<byte>, p: nat, signals: Signals)
    requires p < |text| && text[p] in {UPPER_C, UPPER_S} && !NumberAt(text, p + 1)
    ensures ParseItem(text, p, signals) ==
            if signals(0).None? then None else Some(Item(text[p] == UPPER_S, signals(0).value, p + 1))
  {}

  /** A ':' without a number is thread 0, and is rejected only where neither ';' nor the end follows. */
  lemma MissingThread(text: seq<byte>, c: Cursor, item: Item)
    requires item.end < |text| && text[item.end] == COLON && !NumberAt(text, item.end + 1)
    ensures var next := item.end + 1;
            AfterItem(text, c, item) ==
            if next < |text| && text[next] != SEMICOLON then None
            else Some(Cursor(next, c.slots + [Resume(0, false, item.step, item.sig)], c.default))
  {}

  /** The round that starts at `c` has a number wherever the source tests for one. */
  predicate Numbered(text: seq<byte>, signals: Signals, c: Cursor)
    requires c.p < |text|
  {
    var item := ParseItem(text, c.p + 1, signals);
    && (CharAt(text, c.p + 1) in {UPPER_C, UPPER_S} ==> NumberAt(text, c.p + 2))
    && (item.Some? && CharAt(text, item.value.end) == COLON ==> NumberAt(text, item.value.end + 1))
  }

  /** The parser as it would be if those tests fired. */
  function StrictFrom(text: seq<byte>, signals: Signals, c: Cursor): Option<Cursor>
    requires c.p <= |text|
    decreases |text| - c.p
  {
    if c.p == |text| then Some(c)
    else if !Numbered(text, signals, c) then None
    else
      var r := RoundAt(text, signals, c);
      if r.None? then None else StrictFrom(text, signals, r.value)
  }

  /** Every round that the parser comes to has its numbers. */
  predicate AllNumbered(text: seq<byte>, signals: Signals, c: Cursor)
    requires c.p <= |text|
    decreases |text| - c.p
  {
    c.p < |text| ==>
      && Numbered(text, signals, c)
      && var r := RoundAt(text, signals, c); (r.Some? ==> AllNumbered(text, signals, r.value))
  }

  /** On every text, the tests make no difference if and only if the packet is rejected anyway or
      no number is missing. */
  lemma {:induction false} TestsMissedIff(text: seq<byte>, signals: Signals, c: Cursor)
    requires c.p <= |text|
    ensures StrictFrom(text, signals, c) == ParseFrom(text, signals, c) <==>
            ParseFrom(text, signals, c).None? || AllNumbered(text, signals, c)
    ensures !AllNumbered(text, signals, c) ==> StrictFrom(text, signals, c) == None
    decreases |text| - c.p
  {
    if c.p < |text| && Numbered(text, signals, c) {
      var r := RoundAt(text, signals, c);
      if r.Some? {
        TestsMissedIff(text, signals, r.value);
      }
    }
  }

  /** vCont;C is accepted, and continues with signal 0. */
  lemma SignalMissed(signals: Signals)
    requires signals(0).Some?
    ensures var text := VCONT + [SEMICOLON, UPPER_C];
            && Parse(text, signals) == Some([Resume(-1, false, false, signals(0).value)])
            && StrictFrom(text, signals, START) == None
  {
    var ws := [ForAll(Act(UPPER_C, []))];
    var text := VCONT + [SEMICOLON, UPPER_C];
    assert PrintWishes(ws) == [SEMICOLON, UPPER_C] by {
      assert ws[1..] == [];
    }
    VContObeysIff(ws, signals, 0);
    assert ws[1..] == [] && Slots(ws, signals) == [];
    assert [] + [Default(ws, signals, LEAVE_STOPPED)] == [Slot(ws[0].act, -1, signals)];
    assert VCONT + PrintWishes(ws) == text;
    assert text[6] == UPPER_C && |text| == 7;
    assert !NumberAt(text, 7);
  }

  /** vCont;c: is accepted, as an action for thread 0. */
  lemma ThreadMissed(signals: Signals)
    ensures var text := VCONT + [SEMICOLON, LOWER_C, COLON];
            && Parse(text, signals) == Some([Resume(0, false, false, 0), LEAVE_STOPPED])
            && StrictFrom(text, signals, START) == None
  {
    var n := Named(Act(LOWER_C, []), false, []);
    var ws := [ForThread(n)];
    var text := VCONT + [SEMICOLON, LOWER_C, COLON];
    assert PrintWishes(ws) == [SEMICOLON, LOWER_C, COLON] by {
      assert ws[1..] == [];
    }
    VContObeysIff(ws, signals, 0);
    assert ws[1..] == [] && Slots(ws, signals) == [Resume(0, false, false, 0)];
    assert [Resume(0, false, false, 0)] + [LEAVE_STOPPED] == [Resume(0, false, false, 0), LEAVE_STOPPED];
    assert VCONT + PrintWishes(ws) == text;
    assert text[6] == LOWER_C && text[7] == COLON && |text| == 8;
    assert ParseItem(text, 6, signals) == Some(Item(false, 0, 7));
    assert !NumberAt(text, 8);
  }

  /** Whatever the text, an accepted packet gives darwin_resume a terminated list. */
  lemma {:induction false} DefaultIsForAll(text: seq<byte>, signals: Signals, c: Cursor)
    requires c.p <= |text| && c.default.thread == -1
    ensures var r := ParseFrom(text, signals, c); r.Some? ==> r.value.default.thread == -1
    decreases |text| - c.p
  {
    if c.p < |text| {
      var r := RoundAt(text, signals, c);
      if r.Some? {
        DefaultIsForAll(text, signals, r.value);
      }
    }
  }

  lemma ParseTerminates(text: seq<byte>, signals: Signals)
    requires |text| >= |VCONT|
    ensures Parse(text, signals).Some? ==> Terminated(Parse(text, signals).value)
  {
    DefaultIsForAll(text, signals, START);
  }
}
