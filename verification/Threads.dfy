/** src/inferiors.c: the list of inferiors with its head and tail, on the heap; and what walks it. */
module Threads {
  import opened Memory
  import opened Options
  import opened Text
  import opened VCont

  class Entry {
    const id: int
    var next: Entry?

    constructor (id: int)
      ensures this.id == id && next == null
    {
      this.id, next := id, null;
    }
  }

  /** The index of the first entry with the id, or the length. */
  function FindId(ids: seq<int>, id: int): (i: nat)
    ensures i <= |ids|
    ensures i < |ids| ==> ids[i] == id
    ensures forall k :: 0 <= k < i ==> ids[k] != id
  {
    if ids == [] || ids[0] == id then 0 else 1 + FindId(ids[1..], id)
  }

  ghost function IdsOf(nodes: seq<Entry>): (r: seq<int>)
    ensures |r| == |nodes| && forall i :: 0 <= i < |nodes| ==> r[i] == nodes[i].id
  {
    seq(|nodes|, i requires 0 <= i < |nodes| => nodes[i].id)
  }

  class InferiorList {
    var head: Entry?
    var tail: Entry?
    ghost var nodes: seq<Entry>

    ghost function At(i: nat): Entry?
      reads this`nodes
    {
      if i < |nodes| then nodes[i] else null
    }

    ghost predicate Valid()
      reads this, nodes
    {
      && head == At(0)
      && tail == (if nodes == [] then null else nodes[|nodes| - 1])
      && (forall i {:trigger nodes[i].next} :: 0 <= i < |nodes| ==> nodes[i].next == At(i + 1))
      && (forall i, k :: 0 <= i < k < |nodes| ==> nodes[i] != nodes[k])
    }

    ghost function Ids(): (r: seq<int>)
      reads this`nodes
      ensures r == IdsOf(nodes)
    {
      IdsOf(nodes)
    }

    constructor ()
      ensures Valid() && nodes == []
    {
      head, tail, nodes := null, null, [];
    }

    /** add_inferior_to_list */
    method Add(e: Entry)
      requires Valid() && e !in nodes
      modifies this, e`next, nodes`next
      ensures Valid() && nodes == old(nodes) + [e]
    {
      e.next := null;
      if tail != null {
        tail.next := e;
      } else {
        head := e;
      }
      tail := e;
      nodes := nodes + [e];
    }

    /** remove_inferior: an absent entry changes nothing. */
    method Remove(e: Entry)
      requires Valid()
      modifies this, nodes`next
      ensures Valid()
      ensures e !in old(nodes) ==> nodes == old(nodes)
      ensures forall i :: 0 <= i < |old(nodes)| && old(nodes)[i] == e ==>
                            nodes == old(nodes)[..i] + old(nodes)[i + 1..]
    {
      if head == e {
        head := e.next;
        if tail == e {
          tail := head;
        }
        nodes := nodes[1..];
        return;
      }
      var cur, k := head, 0;
      while cur != null && cur.next != e
        invariant 0 <= k <= |nodes| && cur == At(k)
        invariant forall i :: 0 <= i <= k && i < |nodes| ==> nodes[i] != e
        decreases |nodes| - k
      {
        cur := cur.next;
        k := k + 1;
      }
      if cur == null {
        return;
      }
      Bypass(cur, e, k + 1);
    }

    method Bypass(cur: Entry, e: Entry, ghost i: nat)
      requires Valid() && 0 < i < |nodes| && cur == nodes[i - 1] && e == nodes[i]
      modifies this, cur`next
      ensures Valid() && nodes == old(nodes)[..i] + old(nodes)[i + 1..]
    {
      cur.next := e.next;
      if tail == e {
        tail := cur;
      }
      ghost var before := nodes;
      nodes := nodes[..i] + nodes[i + 1..];
      forall j | 0 <= j < |nodes| ensures nodes[j] == before[if j < i then j else j + 1] {}
    }

    /** find_inferior_id */
    method FindInferiorId(id: int) returns (e: Entry?)
      requires Valid()
      ensures e == At(FindId(Ids(), id))
    {
      e := head;
      ghost var i := 0;
      while e != null
        invariant 0 <= i <= |nodes| && e == At(i)
        invariant forall k :: 0 <= k < i ==> Ids()[k] != id
        decreases |nodes| - i
      {
        if e.id == id {
          return;
        }
        e := e.next;
        i := i + 1;
      }
    }
  }

  // ---------- qfThreadInfo and qsThreadInfo ----------

  const LOWER_L: byte := 108
  const LOWER_M: byte := 109

  /** The reply to the k-th query of an enumeration; the id is printed as unsigned. */
  function ThreadReply(ids: seq<int>, k: nat): seq<byte> {
    if k < |ids| then [LOWER_M] + HexNumber(ids[k] % 0x1_0000_0000) else [LOWER_L]
  }

  class ThreadQuery {
    const threads: InferiorList
    /** The static cursor of handle_query. */
    var threadPtr: Entry?

    constructor (threads: InferiorList)
      ensures this.threads == threads && threadPtr == null
    {
      this.threads, threadPtr := threads, null;
    }

    /** qfThreadInfo; the source dereferences the head without looking. */
    method First() returns (reply: seq<byte>)
      requires threads.Valid() && threads.nodes != []
      modifies this
      ensures reply == ThreadReply(threads.Ids(), 0) && threadPtr == threads.At(1)
    {
      threadPtr := threads.head;
      reply := [LOWER_M] + HexNumber(threadPtr.id % 0x1_0000_0000);
      threadPtr := threadPtr.next;
    }

    /** qsThreadInfo */
    method Subsequent(ghost k: nat) returns (reply: seq<byte>)
      requires threads.Valid() && threadPtr == threads.At(k)
      modifies this
      ensures reply == ThreadReply(threads.Ids(), k)
      ensures threadPtr == threads.At(if k < |threads.nodes| then k + 1 else k)
    {
      if threadPtr != null {
        reply := [LOWER_M] + HexNumber(threadPtr.id % 0x1_0000_0000);
        threadPtr := threadPtr.next;
      } else {
        reply := [LOWER_L];
      }
    }

    /** A client that asks once for the first thread and then any number of times for the next
        hears of every thread once, in order, and after that only the end mark. */
    method Enumerate(n: nat) returns (replies: seq<seq<byte>>)
      requires threads.Valid() && threads.nodes != []
      modifies this
      ensures |replies| == n + 1
      ensures forall k :: 0 <= k <= n ==> replies[k] == ThreadReply(threads.Ids(), k)
    {
      hide ThreadReply;
      var reply := First();
      replies := [reply];
      for k := 0 to n
        invariant |replies| == k + 1
        invariant threadPtr == threads.At(k + 1)
        invariant forall j :: 0 <= j <= k ==> replies[j] == ThreadReply(threads.Ids(), j)
      {
        reply := Subsequent(k + 1);
        replies := replies + [reply];
      }
    }
  }

  /** The replies tell the threads apart: an enumeration determines the ids, up to their
      unsigned reading. */
  lemma RepliesDetermineIds(p: seq<int>, q: seq<int>)
    requires forall k: nat :: k <= |p| || k <= |q| ==> ThreadReply(p, k) == ThreadReply(q, k)
    ensures |p| == |q| && forall k :: 0 <= k < |p| ==> p[k] % 0x1_0000_0000 == q[k] % 0x1_0000_0000
  {
    assert forall k: nat :: k < |p| ==> ThreadReply(p, k)[0] == LOWER_M;
    assert forall k: nat :: k < |q| ==> ThreadReply(q, k)[0] == LOWER_M;
    assert ThreadReply(p, |p|) == ThreadReply(q, |p|) && ThreadReply(p, |q|) == ThreadReply(q, |q|);
    forall k: nat | k < |p| ensures p[k] % 0x1_0000_0000 == q[k] % 0x1_0000_0000 {
      var x, y := p[k] % 0x1_0000_0000, q[k] % 0x1_0000_0000;
      assert ThreadReply(p, k)[1..] == HexNumber(x) && ThreadReply(q, k)[1..] == HexNumber(y);
      HexNumberValue(x);
      HexNumberValue(y);
    }
  }

  // ---------- set_desired_inferior ----------

  /** The position of the thread that set_desired_inferior picks: the general thread, or, to
      resume, the step thread when any thread may continue, then the continue thread; the
      first one where no thread has the id. */
  function Desired(ids: seq<int>, useGeneral: bool, general: int, cont: int, step: int): (i: nat)
    requires ids != []
    ensures i < |ids|
  {
    var byStep := FindId(ids, step);
    var i :=
      if useGeneral then FindId(ids, general)
      else if step > 0 && (cont == 0 || cont == -1) && byStep < |ids| then byStep
      else FindId(ids, cont);
    if i < |ids| then i else 0
  }

  /** The thread that was asked for is picked, if it is there: by the general thread's id, or to
      resume by the step thread's when any may continue, else by the continue thread's. */
  lemma DesiredIsAsked(ids: seq<int>, general: int, cont: int, step: int)
    requires ids != []
    ensures general in ids ==> ids[Desired(ids, true, general, cont, step)] == general
    ensures general !in ids ==> Desired(ids, true, general, cont, step) == 0
    ensures var stepping := step > 0 && cont in {0, -1} && step in ids;
            var i := Desired(ids, false, general, cont, step);
            && (stepping ==> ids[i] == step)
            && (!stepping && cont in ids ==> ids[i] == cont)
            && (!stepping && cont !in ids ==> i == 0)
  {}

  /** The thread that a vCont packet makes the continue thread. */
  function ContThread(text: seq<byte>, slots: seq<Resume>): int
    requires |text| >= |VCONT| && slots != []
  {
    if Semicolons(text[|VCONT|..]) == 1 && slots[0].thread != -1 then slots[0].thread else -1
  }

  lemma OneSemicolon(n: Named, signals: Signals)
    requires Known(n.act, signals) && InRange(n)
    ensures Semicolons(PrintNamed(n)) == 1
  {
    var text := PrintNamed(n);
    var sign := if n.negative then [MINUS] else [];
    assert text == [SEMICOLON] + ([n.act.letter] + n.act.digits + [COLON] + sign + n.digits);
    forall i | 1 <= i < |text| ensures text[i] != SEMICOLON {
      assert text[i] in [n.act.letter] + n.act.digits + [COLON] + sign + n.digits;
    }
    assert text[0..1] == [SEMICOLON] && text[0..|text|] == text;
    assert [SEMICOLON][..0] == [];
    NoSemicolons(text, 0, 1, |text|);
  }

  /** A packet with one action for one thread that exists resumes that thread, and with that
      action, whatever the general and the step thread are. */
  lemma NamedThreadResumed(n: Named, signals: Signals, ids: seq<int>, general: int, step: int)
    requires Known(n.act, signals) && InRange(n) && Thread(n) > 0 && Thread(n) in ids
    ensures var text := VCONT + PrintWishes([ForThread(n)]);
            var slots := Parse(text, signals);
            && slots.Some? && Terminated(slots.value)
            && var i := Desired(ids, false, general, ContThread(text, slots.value), step);
               ids[i] == Thread(n) && Obeys(Choose(slots.value, ids[i]), Some(n.act), signals)
  {
    hide Parse, Choose, Semicolons, PrintNamed;
    var ws := [ForThread(n)];
    var text := VCONT + PrintWishes(ws);
    assert PrintWishes(ws) == PrintNamed(n) by {
      assert ws[1..] == [] && PrintNamed(n) + [] == PrintNamed(n);
    }
    assert text[|VCONT|..] == PrintNamed(n);
    OneSemicolon(n, signals);
    VContObeysIff(ws, signals, Thread(n));
    assert Slots(ws, signals) == [Slot(n.act, Thread(n), signals)];
    assert Parse(text, signals).value[0] == Slot(n.act, Thread(n), signals);
    var i := FindId(ids, Thread(n));
  }

  class Control {
    const threads: InferiorList
    var current: Entry
    var generalThread: int
    var contThread: int
    var stepThread: int

    constructor (threads: InferiorList, current: Entry)
      ensures this.threads == threads && this.current == current
      ensures generalThread == 0 && contThread == 0 && stepThread == 0
    {
      this.threads, this.current := threads, current;
      generalThread, contThread, stepThread := 0, 0, 0;
    }

    /** set_desired_inferior */
    method SetDesiredInferior(useGeneral: bool)
      requires threads.Valid() && threads.nodes != []
      modifies this`current
      ensures current == threads.nodes[Desired(threads.Ids(), useGeneral, generalThread, contThread, stepThread)]
    {
      var found: Entry?;
      if useGeneral {
        found := threads.FindInferiorId(generalThread);
      } else {
        found := null;
        if stepThread > 0 && (contThread == 0 || contThread == -1) {
          found := threads.FindInferiorId(stepThread);
        }
        if found == null {
          found := threads.FindInferiorId(contThread);
        }
      }
      if found == null {
        current := threads.head;
      } else {
        current := found;
      }
    }

    /** handle_v_cont up to the call of ptrace, with the process that is resumed, stepped or not
        and with which signal. A rejected packet resumes nothing and changes nothing. */
    method HandleVCont(text: seq<byte>, signals: Signals) returns (resumed: Option<(int, bool, int)>)
      requires threads.Valid() && threads.nodes != []
      requires |text| > |VCONT| && text[|VCONT|] == SEMICOLON
      modifies this`current, this`contThread
      ensures var slots := Parse(text, signals);
              if slots.None? then
                resumed == None && contThread == old(contThread) && current == old(current)
              else
                && Terminated(slots.value) && contThread == ContThread(text, slots.value)
                && current == threads.nodes[Desired(threads.Ids(), false, generalThread, contThread, stepThread)]
                && var r := Choose(slots.value, current.id);
                   resumed == Some((current.id, r.step, r.sig))
    {
      var ok, info, n, i := ParseActions(text, signals);
      if !ok {
        return None;
      }
      ParseTerminates(text, signals);
      assert info[0] == info[..i + 1][0];
      if n == 1 && info[0].thread != -1 {
        contThread := info[0].thread;
      } else {
        contThread := -1;
      }
      SetDesiredInferior(false);
      var step, sig := SelectAction(info, i + 1, current.id);
      resumed := Some((current.id, step, sig));
    }

    /** myresume and the choice that darwin_resume makes of its two slots: the current thread's
        process is resumed as asked, whatever the continue thread is. */
    method MyResume(step: bool, sig: int) returns (stepped: bool, delivered: int)
      ensures stepped == step && delivered == sig
    {
      var info := new Resume[2](_ => LEAVE_STOPPED);
      var n := 0;
      if step || sig != 0 || contThread > 0 {
        info[0] := Resume(current.id, false, step, sig);
        n := n + 1;
      }
      info[n] := Resume(-1, contThread > 0, false, 0);
      assert info[..n + 1][n] == info[n] && info[..n + 1][0] == info[0];
      stepped, delivered := SelectAction(info, n + 1, current.id);
    }
  }
}
