/** handle_packet and packet_loop (src/server.c) on the heap: the handlers over one packet buffer,
    one breakpoint table, one thread and one connection. They refine the handlers of module
    EndToEnd, and so the whole server is one on plain memory and one register file. */
module Dispatch {
  import opened Memory
  import opened Options
  import opened Protocol
  import opened Text
  import opened CLibrary
  import opened Framing
  import opened Bursts
  import opened Connection
  import opened Packets
  import opened Session
  import opened ReadAhead
  import opened PatientClients
  import opened PacketLoop
  import opened Breakpoints
  import opened RegisterCache
  import opened EndToEnd
  import opened Likeness
  import opened Branches
  import DarwinMemory
  import Shadow
  import ShadowRuns
  import MemoryServer
  import RegisterRuns
  import RegisterServer
  import Threads
  import VCont

  /** The parts belong together. */
  ghost predicate Together(k: Setup, memory: MemoryServer.Server, registers: RegisterServer.Server,
                           control: Threads.Control, query: Threads.ThreadQuery, remote: Remote)
    reads memory.table, memory.table.chain.repr, memory.table.target
    reads registers, registers.thread, control.threads, control.threads.nodes, query, remote
  {
    && memory.Ready() && registers.Ready() && control.threads.Valid() && remote.Valid()
    && memory.ownBuf == registers.ownBuf && registers.control == control && query.threads == control.threads
    && |control.threads.nodes| == 1 && control.threads.nodes[0].id == registers.thread.id && query.threadPtr == null
    && k.trap == memory.table.trap && k.sizes == registers.thread.sizes
    && k.signals == registers.signals && k.id == registers.thread.id
  }

  /** Nothing that one of them writes is part of another. */
  ghost predicate Apart(memory: MemoryServer.Server, registers: RegisterServer.Server,
                        control: Threads.Control, query: Threads.ThreadQuery, remote: Remote)
    reads memory.table, control.threads
  {
    var repr := memory.table.chain.repr;
    && registers !in repr && registers.thread !in repr && registers.thread.registers !in repr
    && control !in repr && control.threads !in repr && (forall n :: n in control.threads.nodes ==> n !in repr)
    && memory.table !in repr && memory.table.target !in repr
    && query !in repr && remote !in repr && remote.buf !in repr
    && memory.memBuf != registers.thread.registers
    && remote.buf !in {memory.ownBuf, memory.memBuf, registers.thread.registers}
  }

  class Gdbserver {
    const memory: MemoryServer.Server
    const registers: RegisterServer.Server
    const control: Threads.Control
    const query: Threads.ThreadQuery
    const remote: Remote
    /** How often the inferior has been resumed. */
    var runs: nat

    constructor (k: Setup, memory: MemoryServer.Server, registers: RegisterServer.Server,
                 control: Threads.Control, query: Threads.ThreadQuery, remote: Remote)
      requires Together(k, memory, registers, control, query, remote) && Apart(memory, registers, control, query, remote)
      ensures Ready(k) && this.memory == memory && this.registers == registers && this.control == control
      ensures this.query == query && this.remote == remote && runs == 0
    {
      this.memory, this.registers, this.control, this.query, this.remote := memory, registers, control, query, remote;
      runs := 0;
    }

    ghost predicate Ready(k: Setup)
      reads this, memory.table, memory.table.chain.repr, memory.table.target
      reads registers, registers.thread, control.threads, control.threads.nodes, query, remote
    {
      && Together(k, memory, registers, control, query, remote) && Apart(memory, registers, control, query, remote)
      && this !in memory.table.chain.repr
    }

    ghost function Abs(k: Setup): (s: Machine)
      requires Ready(k)
      reads this, memory.table, memory.table.chain.repr, memory.table.target
      reads registers, registers.thread, registers.thread.registers
      reads control.threads, control.threads.nodes, query, remote
      ensures Sound(k, s)
    {
      Machine(memory.table.Abs(), registers.Abs(), runs)
    }

    /** What has been written, and the connection as it is now. */
    ghost function Line(k: Setup): (r: (seq<byte>, Wire))
      requires Ready(k)
      ensures Arriving(r.1.bursts)
      reads this, memory.table, memory.table.chain.repr, memory.table.target
      reads registers, registers.thread, control.threads, control.threads.nodes, query, remote, remote.buf
    {
      (remote.outgoing, remote.Connected())
    }

    /** The text in the packet buffer. */
    function Packet(): seq<byte>
      reads memory.ownBuf
    {
      Str(memory.ownBuf[..])
    }

    /** The reaction is the one that module EndToEnd has for the packet, and so are the new state
        and the text in the buffer. */
    ghost predicate Reacts(k: Setup, s: Machine, packet: seq<byte>, reaction: Reaction)
      requires Ready(k) && Sound(k, s)
      reads this, memory.table, memory.table.chain.repr, memory.table.target
      reads registers, registers.thread, registers.thread.registers
      reads control.threads, control.threads.nodes, query, remote
      reads memory.ownBuf
    {
      var r := RealReaction(k, s, packet);
      SameMachine(Abs(k), r.0) && reaction == r.1 && (Speaks(reaction) ==> Packet() == reaction.text)
    }

    /** The m, M, Z and z branches. */
    method HandleMemory(k: Setup) returns (reaction: Reaction)
      requires Ready(k) && IsMemory(Packet()) && !TooLong(Packet())
      modifies memory.ownBuf, memory.memBuf, memory.table, memory.table.chain.repr, memory.table.target`bytes
      ensures Ready(k) && fresh(memory.table.chain.repr - old(memory.table.chain.repr))
      ensures Reacts(k, old(Abs(k)), old(Packet()), reaction)
      ensures Line(k) == old(Line(k)) && remote.noAckMode == old(remote.noAckMode)
    {
      hide RealReaction, RealMemory, MemoryServer.MemCommand, MemoryServer.ReplyText, ShadowRuns.Step, ShadowRuns.Reply;
      ghost var s, text := Abs(k), Packet();
      MemoryReaction(k, s, text);
      var spoken := memory.HandlePacket();
      reaction := if spoken then Say(Packet()) else Silence;
      assert registers.Abs() == s.regs;
    }

    /** The ?, g, G, p and P branches. */
    method HandleRegisters(k: Setup) returns (reaction: Reaction)
      requires Ready(k) && !IsMemory(Packet()) && IsRegister(k, Packet())
      modifies memory.ownBuf, control`generalThread, registers.thread`valid, registers.thread.registers
      ensures Ready(k) && Reacts(k, old(Abs(k)), old(Packet()), reaction) && Line(k) == old(Line(k))
    {
      hide RealReaction, RealRegisters, RegisterServer.RegCommand, RegisterServer.Reply, RegisterServer.After;
      ghost var s, text := Abs(k), Packet();
      RegisterReaction(k, s, text);
      var spoken := registers.HandlePacket();
      reaction := if spoken then Say(Packet()) else Silence;
      assert memory.table.Abs() == s.mem;
    }

    // ---------- the branches that resume ----------

    /** The c, s, C, S and vCont branches up to ptrace: what it is to be called with, unless the
        packet is a vCont packet that the parser rejects. */
    method Choose(k: Setup) returns (order: Option<Order>)
      requires Ready(k) && (IsResume(k.hostSignals, Packet()) || IsVCont(Packet()))
      modifies control`current, control`contThread
      ensures Ready(k) && Abs(k) == old(Abs(k)) && Line(k) == old(Line(k))
      ensures order == if IsResume(k.hostSignals, Packet()) then Some(OrderOf(k.hostSignals, k.id, Packet())) else None
    {
      hide VCont.Parse;
      var text := Packet();
      if IsVCont(text) {
        var chosen := control.HandleVCont(text, k.hostSignals);
        order := if chosen.None? then None else Some(Order(chosen.value.0, chosen.value.1, chosen.value.2));
      } else {
        control.SetDesiredInferior(false);
        var sig := if HasSignal(text) then SignalByte(k.hostSignals, PairAt(text[1..], 0)) else 0;
        var stepped, delivered := control.MyResume(CharAt(text, 0) in {VCont.LOWER_S, VCont.UPPER_S}, sig);
        order := Some(Order(control.current.id, stepped, delivered));
      }
    }

    /** ptrace, and the run until the inferior stops or ends. */
    method Ptrace(k: Setup, order: Order, started: seq<byte>) returns (r: Ran)
      requires Ready(k)
      modifies memory.table.target`bytes, this`runs
      ensures Ready(k) && r == k.inferior(old(runs), order, started)
      ensures registers.Abs() == old(registers.Abs()) && runs == old(runs) + 1
      ensures memory.table.Abs() == ShadowRuns.Step(k.trap, old(memory.table.Abs()), ShadowRuns.Stored(r.addr, r.data))
    {
      r := k.inferior(runs, order, started);
      memory.table.target.bytes := Overlay(memory.table.target.bytes, r.addr, r.data);
      runs := runs + 1;
    }

    /** The cache is written back, the inferior runs, and prepare_resume_reply answers. */
    method Resume(k: Setup, order: Order) returns (ghost r: Ran)
      requires Ready(k) && Possible(k, k.inferior(runs, order, RegisterRuns.View(Abs(k).regs)))
      modifies memory.ownBuf, memory.table.target`bytes, this`runs, registers`stop, control`generalThread
      modifies registers.thread`hw, registers.thread`valid, registers.thread.registers
      ensures Ready(k) && r == k.inferior(old(runs), order, old(RegisterRuns.View(Abs(k).regs))) && Possible(k, r)
      ensures Line(k) == old(Line(k))
      ensures var s := old(Abs(k));
              && Abs(k) == Machine(ShadowRuns.Step(k.trap, s.mem, ShadowRuns.Stored(r.addr, r.data)),
                                   RegisterRuns.Step(k.sizes, s.regs, Resumption(r)), s.runs + 1)
              && Packet() == RegisterServer.Reply(k.sizes, k.signals, k.id, s.regs, Resumption(r))
    {
      hide RegisterServer.Reply, RegisterRuns.Step, ShadowRuns.Step;
      ghost var s := Abs(k);
      var started := registers.WriteBack();
      var ran := Ptrace(k, order, started);
      WrittenBack(k, s.regs, Resumption(ran));
      registers.WaitAndReply(ran.regs, ran.stop);
      r := ran;
    }

    /** The same branches as a whole. */
    method HandleResume(k: Setup) returns (reaction: Reaction)
      requires Ready(k) && !IsMemory(Packet()) && !IsRegister(k, Packet()) && IsResume(k.hostSignals, Packet())
      requires Possible(k, RunOf(k, runs, Packet(), RegisterRuns.View(Abs(k).regs)))
      modifies memory.ownBuf, memory.table.target`bytes, this`runs, registers`stop
      modifies control`current, control`contThread, control`generalThread
      modifies registers.thread`hw, registers.thread`valid, registers.thread.registers
      ensures Ready(k) && Reacts(k, old(Abs(k)), old(Packet()), reaction) && Line(k) == old(Line(k))
    {
      hide RealReaction, IsMemory, IsRegister, IsResume, RegisterServer.Reply, RegisterRuns.Step, ShadowRuns.Step, OrderOf;
      hide Together, Apart;
      ghost var s, text := Abs(k), Packet();
      ResumedMachine(k, s, text, RunOf(k, runs, text, RegisterRuns.View(s.regs)));
      var order := Choose(k);
      ghost var ran := Resume(k, order.value);
      reaction := Say(Packet());
    }

    // ---------- the branches that do neither ----------

    /** Put a reply into the buffer. */
    method Answer(k: Setup, reply: seq<byte>)
      requires Ready(k) && |reply| < PBUFSIZ && NUL !in reply
      modifies memory.ownBuf
      ensures Ready(k) && Abs(k) == old(Abs(k)) && Line(k) == old(Line(k)) && Packet() == reply
    {
      registers.WriteReply(reply);
    }

    /** qfThreadInfo and qsThreadInfo, with one thread in the list */
    method ThreadInfo(k: Setup, first: bool) returns (reply: seq<byte>)
      requires Ready(k)
      modifies query
      ensures Ready(k) && Abs(k) == old(Abs(k)) && Line(k) == old(Line(k))
      ensures reply == if first then Ascii("m") + HexNumber(k.id) else Ascii("l")
    {
      hide HexNumber, Ascii, Threads.ThreadReply;
      OneThread(control.threads.Ids(), k.id);
      if first {
        reply := query.First();
      } else {
        reply := query.Subsequent(1);
      }
    }

    /** The id of the head of the list. */
    method FirstId(k: Setup) returns (id: int)
      requires Ready(k)
      ensures id == k.id <= ULONG_MAX
    {
      id := control.threads.head.id;
    }

    /** handle_query */
    method HandleQuery(k: Setup)
      requires Ready(k)
      modifies memory.ownBuf, query
      ensures Ready(k) && Abs(k) == old(Abs(k)) && Line(k) == old(Line(k)) && Packet() == QueryReply(k.id, old(Packet()))
    {
      hide HexNumber, Together, Apart, StartsWith, Ascii;
      var text, reply := Packet(), [];
      var id := FirstId(k);
      if text == Ascii("qC") {
        reply := Ascii("QC") + HexNumber(id);
      } else if StartsWith(text, Ascii("qSupported")) {
        reply := Ascii("PacketSize=") + HexNumber(PBUFSIZ - 1);
      } else if text == Ascii("qAttached") {
        reply := Ascii("0");
      } else if text == Ascii("qSymbol::") {
        reply := OK;
      } else if text == Ascii("qfThreadInfo") {
        reply := ThreadInfo(k, true);
      } else if text == Ascii("qsThreadInfo") {
        reply := ThreadInfo(k, false);
      }
      IdFits(id);
      QueryReplyFits(id, text);
      Answer(k, reply);
    }

    /** Acknowledgments are off from here. */
    method StopAcks(k: Setup)
      requires Ready(k)
      modifies remote`noAckMode
      ensures Ready(k) && Abs(k) == old(Abs(k)) && Line(k) == old(Line(k)) && remote.noAckMode
    {
      remote.noAckMode := true;
    }

    /** handle_set: OK goes into the buffer, and acknowledgments are off before it is sent. */
    method HandleSet(k: Setup)
      requires Ready(k) && CharAt(Packet(), 0) == Letter('Q')
      modifies memory.ownBuf, remote`noAckMode
      ensures Ready(k) && Abs(k) == old(Abs(k)) && Line(k) == old(Line(k))
      ensures remote.noAckMode == (old(remote.noAckMode) || old(Packet()) == START_NO_ACK)
      ensures Packet() == FixedReply(k.id, k.alive(runs), old(Packet()))
    {
      hide Together, Apart, Str;
      var text := Packet();
      if text == START_NO_ACK {
        Answer(k, OK);
        StopAcks(k);
      } else if StartsWith(text, Ascii("QPassSignals:")) {
        Answer(k, OK);
      } else {
        Answer(k, []);
      }
    }

    /** handle_H_set_thread, but for the reply */
    method SetThread(k: Setup, which: byte, id: int)
      requires Ready(k)
      modifies control`current, control`contThread, control`generalThread, control`stepThread
      ensures Ready(k) && Abs(k) == old(Abs(k)) && Line(k) == old(Line(k))
      ensures control.generalThread == if which == Letter('g') then id else old(control.generalThread)
      ensures control.contThread == if which == Letter('c') then id else old(control.contThread)
      ensures control.stepThread == if which == Letter('s') then id else old(control.stepThread)
    {
      if which == Letter('g') {
        control.generalThread := id;
        control.SetDesiredInferior(true);
      } else if which == Letter('c') {
        control.contThread := id;
      } else if which == Letter('s') {
        control.stepThread := id;
      }
    }

    /** handle_H_set_thread */
    method HandleSetThread(k: Setup)
      requires Ready(k) && CharAt(Packet(), 0) == Letter('H')
      modifies memory.ownBuf, control`current, control`contThread, control`generalThread, control`stepThread
      ensures Ready(k) && Abs(k) == old(Abs(k)) && Line(k) == old(Line(k))
      ensures Packet() == FixedReply(k.id, k.alive(runs), old(Packet()))
    {
      hide Together, Apart, Str, FixedReply;
      var text := Packet();
      SetThreadReply(k.id, k.alive(runs), text);
      var which := CharAt(text, 1);
      if which in {Letter('g'), Letter('c'), Letter('s')} {
        assert |text| >= 2;
        SetThread(k, which, Strtol(text, 2).0);
        Answer(k, OK);
      } else {
        Answer(k, []);
      }
    }

    /** handle_v_requests, but for the vCont packets that the parser accepts. */
    method HandleRequest(k: Setup)
      requires Ready(k) && CharAt(Packet(), 0) == Letter('v') && !IsResume(k.hostSignals, Packet())
      modifies memory.ownBuf, control`current, control`contThread
      ensures Ready(k) && Abs(k) == old(Abs(k)) && Line(k) == old(Line(k))
      ensures Packet() == FixedReply(k.id, k.alive(runs), old(Packet()))
    {
      hide IsResume, IsVCont, Together, Apart, Str, StartsWith, Ascii, FixedReply;
      var text, reply := Packet(), [];
      RequestReply(k.id, k.alive(runs), text);
      if IsVCont(text) {
        var order := Choose(k);
        VContHasNoQuestion(text);
      } else if StartsWith(text, Ascii("vCont?")) {
        reply := Ascii("vCont;c;C;s;S");
        AsciiIsText("vCont;c;C;s;S");
      }
      Answer(k, reply);
    }

    /** All branches but D and k that neither resume nor look at memory or registers. */
    method HandleOther(k: Setup)
      requires Ready(k) && !IsResume(k.hostSignals, Packet())
      modifies memory.ownBuf, query, remote`noAckMode
      modifies control`current, control`contThread, control`generalThread, control`stepThread
      ensures Ready(k) && Abs(k) == old(Abs(k)) && Line(k) == old(Line(k))
      ensures remote.noAckMode == (old(remote.noAckMode) || old(Packet()) == START_NO_ACK)
      ensures Packet() == FixedReply(k.id, k.alive(runs), old(Packet()))
    {
      hide IsResume, QueryReply, IsVCont, Together, Apart, Str;
      var text := Packet();
      var letter := CharAt(text, 0);
      if letter == Letter('q') {
        HandleQuery(k);
      } else if letter == Letter('Q') {
        HandleSet(k);
      } else if letter == Letter('H') {
        HandleSetThread(k);
      } else if letter == Letter('v') {
        HandleRequest(k);
      } else if letter == Letter('T') {
        Answer(k, if k.alive(runs)(Strtol(text, 1).0) then OK else ERROR);
      } else if letter == Letter('!') {
        Answer(k, OK);
      } else if letter != Letter('d') {   // which leaves the buffer alone
        Answer(k, []);
      }
    }

    /** The same with D and k, and the call of `error` in parse_signal_byte. */
    method HandleAside(k: Setup) returns (reaction: Reaction)
      requires Ready(k) && !IsMemory(Packet()) && !IsRegister(k, Packet()) && !IsResume(k.hostSignals, Packet())
      modifies memory.ownBuf, query, remote`noAckMode
      modifies control`current, control`contThread, control`generalThread, control`stepThread
      ensures Ready(k) && Reacts(k, old(Abs(k)), old(Packet()), reaction) && Line(k) == old(Line(k))
      ensures remote.noAckMode == (old(remote.noAckMode) || old(Packet()) == START_NO_ACK)
    {
      hide IsResume, FixedReply, IsMemory, IsRegister, RealReaction, Together, Apart, Str;
      var text := Packet();
      AsideReaction(k, Abs(k), text);
      if HasSignal(text) {
        return Silence;
      }
      if IsKill(text) {
        return Quit;
      }
      if IsDetach(text) {
        Answer(k, OK);
        return Farewell(OK);
      }
      HandleOther(k);
      reaction := Say(Packet());
    }

    // ---------- handle_packet ----------

    /** handle_packet with handle_terminated_inferior: new state, mode, reaction and the text in
        the buffer are what packet_loop is understood to do with the packet. */
    method HandlePacket(k: Setup) returns (reaction: Reaction)
      requires Ready(k) && Defined(k, Abs(k), Packet())
      modifies memory.ownBuf, memory.memBuf, memory.table, memory.table.chain.repr, memory.table.target`bytes
      modifies registers`stop, registers.thread, registers.thread.registers
      modifies this`runs, control, query, remote`noAckMode
      ensures Ready(k) && fresh(memory.table.chain.repr - old(memory.table.chain.repr))
      ensures Line(k) == old(Line(k))
      ensures var (t, mode, r) := Handle(Real(k), old(Abs(k)), old(remote.noAckMode), old(Packet()));
              && SameMachine(Abs(k), t) && remote.noAckMode == mode && reaction == Finished(t.regs.stop, r)
              && (Speaks(reaction) ==> Packet() == reaction.text)
    {
      hide IsMemory, IsRegister, IsResume, Undefined, TooLong, RealReaction, Str, Together, Apart;
      ghost var s, text := Abs(k), Packet();
      StrAgain(text);
      SwitchReaction(k, s);
      if IsMemory(Packet()) {
        reaction := HandleMemory(k);
      } else if IsRegister(k, Packet()) {
        reaction := HandleRegisters(k);
      } else if IsResume(k.hostSignals, Packet()) {
        reaction := HandleResume(k);
      } else {
        reaction := HandleAside(k);
      }
      if reaction.Say? && Gone(registers.stop) {
        reaction := Farewell(reaction.text);
      }
    }

    // ---------- packet_loop ----------

    /** getpkt */
    method Receive(k: Setup) returns (r: Reading)
      requires Ready(k)
      modifies remote`bursts, remote`outgoing, remote`bufcnt, remote`bufp, remote.buf
      ensures Ready(k) && Abs(k) == old(Abs(k))
      ensures var (outgoing, w) := old(Line(k));
              HasRead(w, remote.noAckMode, outgoing, r, Line(k).0, Line(k).1)
    {
      hide HasRead;
      r := ReadPacket(remote);
    }

    /** The packet goes into the buffer with a NUL behind it. */
    method Store(k: Setup, packet: seq<byte>)
      requires Ready(k) && |packet| < PBUFSIZ
      modifies memory.ownBuf
      ensures Ready(k) && Abs(k) == old(Abs(k)) && Line(k) == old(Line(k)) && Packet() == Str(packet)
    {
      DarwinMemory.Target.CopyIn(memory.ownBuf, 0, packet + [NUL]);
      StrOf(packet, memory.ownBuf[..]);
    }

    /** putpkt on the buffer, if there is something to send */
    method Send(k: Setup, reaction: Reaction)
      requires Ready(k) && (Speaks(reaction) ==> Packet() == reaction.text)
      modifies remote`bursts, remote`outgoing, remote`interrupts
      ensures Ready(k) && Abs(k) == old(Abs(k))
      ensures var (outgoing, w) := old(Line(k));
              && Line(k).0 == outgoing + Written(w, remote.noAckMode, reaction)
              && Line(k).1 == ReadAhead.Answered(w, remote.noAckMode, reaction)
    {
      hide Written, ReadAhead.Answered;
      var text := Packet();
      SendReaction(remote, if reaction.Say? then Say(text) else if reaction.Farewell? then Farewell(text) else reaction);
    }

    /** What the session is from here on: the machine shows the plain one, and the client, who
        waits for replies, will send `qs`, all of them allowed where they are handled. */
    ghost predicate Serving(k: Setup, m: PlainMachine, qs: seq<Request>, tail: seq<byte>)
      requires Ready(k)
      reads this, memory.table, memory.table.chain.repr, memory.table.target
      reads registers, registers.thread, registers.thread.registers
      reads control.threads, control.threads.nodes, query, remote, remote.buf
    {
      && EndToEnd.Shows(k, Abs(k), m) && AllAllowed(k, Abs(k), remote.noAckMode, qs)
      && Junk(tail) && (forall i :: 0 <= i < |qs| ==> Proper(qs[i]))
      && Stream(Line(k).1) == ClientStream(EndToEnd.Plain(k), m, remote.noAckMode, qs, tail)
      && Patient(EndToEnd.Plain(k), m, remote.noAckMode, qs, Line(k).1)
    }

    /** handle_packet and putpkt on a packet that fits the buffer. */
    method React(k: Setup, packet: seq<byte>) returns (reaction: Reaction)
      requires Ready(k) && |packet| < PBUFSIZ && Defined(k, Abs(k), Str(packet))
      modifies memory.ownBuf, memory.memBuf, memory.table, memory.table.chain.repr, memory.table.target`bytes
      modifies registers`stop, registers.thread, registers.thread.registers
      modifies this`runs, control, query
      modifies remote`noAckMode, remote`bursts, remote`outgoing, remote`interrupts
      ensures Ready(k) && fresh(memory.table.chain.repr - old(memory.table.chain.repr))
      ensures var (outgoing, w) := old(Line(k));
              var (t, mode, r) := Handle(Real(k), old(Abs(k)), old(remote.noAckMode), Str(packet));
              && SameMachine(Abs(k), t) && remote.noAckMode == mode && reaction == Finished(t.regs.stop, r)
              && Line(k) == (outgoing + Written(w, mode, reaction), ReadAhead.Answered(w, mode, reaction))
    {
      hide Together, Apart, Real, ReadAhead.Answered, Written, Defined, Handle;
      Store(k, packet);
      reaction := HandlePacket(k);
      Send(k, reaction);
    }

    /** One turn of the loop, whatever getpkt makes of the stream: the end of it and an empty
        packet end the loop, and so does a call of `exit`; after one of `error` it goes on. */
    method Exchange(k: Setup) returns (reaction: Reaction)
      requires Ready(k)
      requires var got := GetPkt(Stream(Line(k).1), remote.noAckMode).got;
               got.Packet? ==> |got.body| < PBUFSIZ && Defined(k, Abs(k), Str(got.body))
      modifies memory.ownBuf, memory.memBuf, memory.table, memory.table.chain.repr, memory.table.target`bytes
      modifies registers`stop, registers.thread, registers.thread.registers
      modifies this`runs, control, query, remote, remote.buf
      ensures Ready(k) && fresh(memory.table.chain.repr - old(memory.table.chain.repr))
      ensures var (outgoing, w) := old(Line(k));
              var spec := GetPkt(Stream(w), old(remote.noAckMode));
              && |Rest(spec.got)| <= |Stream(w)|
              && var v := Left(w, |Rest(spec.got)|);
                 if spec.got.Packet? && spec.got.body != [] then
                   var (t, mode, r) := Handle(Real(k), old(Abs(k)), old(remote.noAckMode), Str(spec.got.body));
                   && SameMachine(Abs(k), t) && remote.noAckMode == mode && reaction == Finished(t.regs.stop, r)
                   && Line(k) == (outgoing + spec.out + Written(v, mode, reaction), ReadAhead.Answered(v, mode, reaction))
                 else
                   && Abs(k) == old(Abs(k)) && remote.noAckMode == old(remote.noAckMode)
                   && reaction == (if spec.got.BadDigit? then Silence else Quit)
                   && Line(k) == (outgoing + spec.out, v)
    {
      hide Together, Apart, GetPkt, Left, Real, ReadAhead.Answered, Written, Defined, Handle;
      var r := Receive(k);
      match r {
        case Ended => return Quit;
        case Abandoned => return Silence;
        case Received(packet) =>
          if packet == [] {
            return Quit;
          }
          reaction := React(k, packet);
      }
    }

    /** One turn of the loop in a session. */
    method Turn(k: Setup, ghost m: PlainMachine, ghost qs: seq<Request>, ghost tail: seq<byte>)
      returns (more: bool, ghost n: PlainMachine, ghost rest: seq<Request>)
      requires Ready(k) && Serving(k, m, qs, tail)
      modifies memory.ownBuf, memory.memBuf, memory.table, memory.table.chain.repr, memory.table.target`bytes
      modifies registers`stop, registers.thread, registers.thread.registers
      modifies this`runs, control, query, remote, remote.buf
      ensures Ready(k) && fresh(memory.table.chain.repr - old(memory.table.chain.repr))
      ensures more ==> |rest| < |qs| && Serving(k, n, rest, tail)
      ensures old(Line(k)).0 + ServerStream(EndToEnd.Plain(k), m, old(remote.noAckMode), qs) ==
              Line(k).0 + if more then ServerStream(EndToEnd.Plain(k), n, remote.noAckMode, rest) else []
    {
      hide Ready, GetPkt, Left, Real, EndToEnd.Plain, EndToEnd.Shows, ClientStream, ServerStream, Patient;
      hide ReadAhead.Answered, Written, Defined, AllAllowed, Handle;
      ghost var s, line, noAck := Abs(k), Line(k), remote.noAckMode;
      ghost var spec := GetPkt(Stream(line.1), noAck);
      n, rest := m, [];
      NextReading(k, s, m, noAck, qs, tail, line.1);
      var reaction := Exchange(k);
      more := Stays(reaction);
      if qs != [] {
        rest, n := qs[1..], Handle(EndToEnd.Plain(k), m, noAck, spec.got.body).0;
        ghost var t := Handle(Real(k), s, noAck, Str(spec.got.body)).0;
        ghost var later := if more then ServerStream(EndToEnd.Plain(k), n, remote.noAckMode, rest) else [];
        Regrouped(line.0, spec.out, Written(Left(line.1, |spec.got.rest|), remote.noAckMode, reaction), later);
        if more {
          ShowsSame(k, t, Abs(k), n);
          AllAllowedSame(k, t, Abs(k), remote.noAckMode, rest);
        }
      }
    }

    /** packet_loop, to the end of the session. */
    method Serve(k: Setup, ghost m: PlainMachine, ghost qs: seq<Request>, ghost tail: seq<byte>)
      requires Ready(k) && Serving(k, m, qs, tail)
      modifies memory.ownBuf, memory.memBuf, memory.table, memory.table.chain.repr, memory.table.target`bytes
      modifies registers`stop, registers.thread, registers.thread.registers
      modifies this`runs, control, query, remote, remote.buf
      ensures remote.outgoing == old(remote.outgoing) + ServerStream(EndToEnd.Plain(k), m, old(remote.noAckMode), qs)
    {
      hide Together, Apart, EndToEnd.Plain, Serving, ServerStream;
      ghost var n, rest := m, qs;
      var more := true;
      while more
        invariant Ready(k) && fresh(memory.table.chain.repr - old(memory.table.chain.repr))
        invariant more ==> Serving(k, n, rest, tail)
        invariant old(remote.outgoing) + ServerStream(EndToEnd.Plain(k), m, old(remote.noAckMode), qs) ==
                  Line(k).0 + if more then ServerStream(EndToEnd.Plain(k), n, remote.noAckMode, rest) else []
        decreases more, |rest|
      {
        more, n, rest := Turn(k, n, rest, tail);
      }
    }
  }

  /** An inferior that has stopped, before any packet. */
  ghost function Stopped(k: Setup, bytes: Space, hw: Hardware, stop: RegisterRuns.Stop): Machine
    requires PpcTable(k.sizes) && WellSized(hw)
  {
    Machine(Shadow.State(bytes, [], 1),
            RegisterRuns.State(false, seq(RegisterBytes(k.sizes), _ => 0), RegisterCache.Flat(k.sizes, hw), stop), 0)
  }

  /** The same as a plain machine. */
  ghost function Initial(k: Setup, bytes: Space, hw: Hardware, stop: RegisterRuns.Stop): PlainMachine
    requires PpcTable(k.sizes) && WellSized(hw)
  {
    PlainMachine(bytes, RegisterCache.Flat(k.sizes, hw), stop, 0)
  }

  method NewMemory(trap: seq<byte>, bytes: Space, ownBuf: array<byte>) returns (memory: MemoryServer.Server)
    requires |trap| <= MAX_BREAKPOINT_LEN && ownBuf.Length == PBUFSIZ
    ensures fresh(memory) && fresh(memory.table) && fresh(memory.table.target) && fresh(memory.memBuf)
    ensures memory.Ready() && memory.ownBuf == ownBuf && memory.table.trap == trap && memory.table.chain.repr == {}
    ensures memory.table.Abs() == Shadow.State(bytes, [], 1)
  {
    var target := new DarwinMemory.Target(bytes, (a: int) => false, (a: int) => false);
    var table := new BreakpointTable(target, trap);
    memory := new MemoryServer.Server(table, ownBuf);
  }

  method NewControl(id: int) returns (control: Threads.Control)
    ensures fresh(control) && fresh(control.threads) && control.threads.Valid()
    ensures |control.threads.nodes| == 1 && control.threads.nodes[0].id == id && fresh(control.threads.nodes[0])
  {
    var threads := new Threads.InferiorList();
    var entry := new Threads.Entry(id);
    threads.Add(entry);
    control := new Threads.Control(threads, entry);
  }

  method NewRegisters(k: Setup, hw: Hardware, stop: RegisterRuns.Stop, ownBuf: array<byte>, control: Threads.Control)
    returns (registers: RegisterServer.Server)
    requires PpcTable(k.sizes) && WellSized(hw) && k.id <= ULONG_MAX && stop.status != NUL && ownBuf.Length == PBUFSIZ
    ensures fresh(registers) && fresh(registers.thread) && fresh(registers.thread.registers)
    ensures registers.Ready() && registers.ownBuf == ownBuf && registers.control == control
    ensures registers.thread.sizes == k.sizes && registers.signals == k.signals && registers.thread.id == k.id
    ensures registers.Abs() == Stopped(k, (a: int) => 0, hw, stop).regs
  {
    var thread := new Thread(k.id, k.sizes, hw);
    registers := new RegisterServer.Server(thread, k.signals, stop, ownBuf, control);
  }

  /** remote_open, and the handlers put together. */
  method Connect(k: Setup, memory: MemoryServer.Server, registers: RegisterServer.Server, control: Threads.Control,
                 bursts: seq<seq<byte>>) returns (server: Gdbserver)
    requires memory.Ready() && registers.Ready() && control.threads.Valid() && Arriving(bursts)
    requires memory.table.chain.repr == {} && memory.memBuf != registers.thread.registers
    requires memory.ownBuf == registers.ownBuf && registers.control == control
    requires |control.threads.nodes| == 1 && control.threads.nodes[0].id == registers.thread.id == k.id
    requires k.trap == memory.table.trap && k.sizes == registers.thread.sizes && k.signals == registers.signals
    ensures fresh(server) && fresh(server.query) && fresh(server.remote) && fresh(server.remote.buf)
    ensures server.memory == memory && server.registers == registers && server.control == control
    ensures server.Ready(k) && server.Line(k) == ([], Wire([], bursts)) && !server.remote.noAckMode
    ensures server.Abs(k) == Machine(memory.table.Abs(), registers.Abs(), 0)
  {
    var query := new Threads.ThreadQuery(control.threads);
    var remote := new Remote(bursts);
    server := new Gdbserver(k, memory, registers, control, query, remote);
  }

  /** A server as main (src/server.c) sets it up, on an inferior that has stopped. */
  method Start(k: Setup, bytes: Space, hw: Hardware, stop: RegisterRuns.Stop, bursts: seq<seq<byte>>)
    returns (server: Gdbserver)
    requires |k.trap| <= MAX_BREAKPOINT_LEN && PpcTable(k.sizes) && WellSized(hw) && k.id <= ULONG_MAX
    requires stop.status != NUL && Arriving(bursts)
    ensures server.Ready(k) && server.memory.table.chain.repr == {}
    ensures fresh(server) && fresh(server.memory.ownBuf) && fresh(server.memory.memBuf)
    ensures fresh(server.memory.table) && fresh(server.memory.table.target)
    ensures fresh(server.registers) && fresh(server.registers.thread) && fresh(server.registers.thread.registers)
    ensures fresh(server.control) && fresh(server.query) && fresh(server.remote) && fresh(server.remote.buf)
    ensures server.Line(k) == ([], Wire([], bursts)) && !server.remote.noAckMode
    ensures server.Abs(k) == Stopped(k, bytes, hw, stop)
  {
    hide Together, Apart;
    var ownBuf := new byte[PBUFSIZ](_ => 0);
    var memory := NewMemory(k.trap, bytes, ownBuf);
    var control := NewControl(k.id);
    var registers := NewRegisters(k, hw, stop, ownBuf, control);
    server := Connect(k, memory, registers, control, bursts);
  }

  /** The whole server: started on an inferior that has stopped, and serving a client that is
      careful and waits for every reply, it writes what a server on plain memory and one
      register file would. */
  method ServeCareful(k: Setup, bytes: Space, hw: Hardware, stop: RegisterRuns.Stop, bursts: seq<seq<byte>>,
                      ghost qs: seq<Request>, ghost tail: seq<byte>) returns (outgoing: seq<byte>)
    requires 0 < |k.trap| <= MAX_BREAKPOINT_LEN && PpcTable(k.sizes) && WellSized(hw) && k.id <= ULONG_MAX
    requires stop.status != NUL && Junk(tail) && forall i :: 0 <= i < |qs| ==> Proper(qs[i])
    requires AllCareful(k, Stopped(k, bytes, hw, stop), false, qs)
    requires bursts == TurnByTurn(EndToEnd.Plain(k), Initial(k, bytes, hw, stop), false, qs, tail, [])
    ensures outgoing == ServerStream(EndToEnd.Plain(k), Initial(k, bytes, hw, stop), false, qs)
  {
    hide AllCareful, AllAllowed, TurnByTurn, ServerStream, EndToEnd.Plain, ClientStream, Patient, Together, Apart;
    ghost var m := Initial(k, bytes, hw, stop);
    var server := Start(k, bytes, hw, stop, bursts);
    ghost var s := server.Abs(k);
    CarefulIsAllowed(k, s, false, qs);
    TurnByTurnIsPatient(EndToEnd.Plain(k), m, false, qs, tail);
    server.Serve(k, m, qs, tail);
    outgoing := server.remote.outgoing;
  }
}
