/** Packets and replies in literal text: what the real server says to a packet of each kind, and
    what becomes of memory, registers and the session. */
module Transcript {
  import opened Memory
  import opened Text
  import opened Spelling
  import opened Session
  import opened EndToEnd
  import opened Branches
  import HexCodec
  import MemoryServer
  import Shadow
  import ShadowWrite

  // ---------- memory ----------

  function ReadText(addr: nat, len: nat): seq<byte> {
    Ascii("m") + (HexNumber(addr) + Ascii(",") + HexNumber(len))
  }

  /** m shows the bytes that the client is meant to see. */
  lemma ReadTranscript(k: Setup, s: Machine, addr: nat, len: nat)
    requires Sound(k, s) && addr < 0x8000_0000_0000_0000 && len < 0x10000
    ensures RealReaction(k, s, ReadText(addr, len)) ==
            (s, Say(HexEncode(Slice(Shadow.Logical(s.mem), addr, len))))
  {
    ReadSpelled(addr, len);
    hide MemoryServer.MemCommand, RealReaction, Ascii, HexNumber, HexEncode, Shadow.Logical, Shadow.ReadBack;
    MemoryReaction(k, s, ReadText(addr, len));
    Shadow.ReadBackIsLogical(s.mem, addr, len);
  }

  function WriteText(addr: nat, data: seq<byte>): seq<byte> {
    Ascii("M") + (HexNumber(addr) + Ascii(",") + (HexNumber(|data|) + Ascii(":") + HexEncode(data)))
  }

  lemma WriteHandled(k: Setup, s: Machine, addr: nat, data: seq<byte>)
    requires Sound(k, s) && addr < 0x8000_0000_0000_0000 && |data| < 0x1_0000_0000
    ensures RealReaction(k, s, WriteText(addr, data)) ==
            (s.(mem := Shadow.Write(k.trap, s.mem, addr, data)), Say(Ascii("OK")))
  {
    WriteSpelled(addr, data);
    Marks();
    hide MemoryServer.MemCommand, RealReaction, Ascii, HexNumber, HexEncode, Shadow.Write;
    MemoryReaction(k, s, WriteText(addr, data));
  }

  lemma WriteSeen(trap: seq<byte>, s: Shadow.State, addr: int, data: seq<byte>, a: int)
    requires Shadow.Sized(trap, s.recs) && ShadowWrite.Writable(trap, s.recs, addr, data)
    ensures Shadow.Logical(Shadow.Write(trap, s, addr, data))(a) ==
            if addr <= a < addr + |data| then data[a - addr] else Shadow.Logical(s)(a)
  {
    hide Shadow.Logical, Shadow.Write, ShadowWrite.Writable;
    ShadowWrite.WriteExactIff(trap, s, addr, data);
  }

  /** M is answered OK, and changes in the view the bytes from the address on, each to the one that
      was sent, and no other. */
  lemma WriteTranscript(k: Setup, s: Machine, addr: nat, data: seq<byte>, a: int)
    requires Sound(k, s) && addr < 0x8000_0000_0000_0000 && |data| < 0x1_0000_0000
    requires ShadowWrite.Writable(k.trap, s.mem.recs, addr, data)
    ensures var (t, reaction) := RealReaction(k, s, WriteText(addr, data));
            && reaction == Say(Ascii("OK")) && t.regs == s.regs && t.runs == s.runs
            && Shadow.Logical(t.mem)(a) == if addr <= a < addr + |data| then data[a - addr] else Shadow.Logical(s.mem)(a)
  {
    hide RealReaction, Ascii, WriteText, Shadow.Logical, Shadow.Write, ShadowWrite.Writable;
    WriteHandled(k, s, addr, data);
    WriteSeen(k.trap, s.mem, addr, data, a);
  }

  /** And m reads back what M has written. */
  lemma ReadAfterWrite(k: Setup, s: Machine, addr: nat, data: seq<byte>)
    requires Sound(k, s) && addr < 0x8000_0000_0000_0000 && |data| < 0x10000
    requires ShadowWrite.Writable(k.trap, s.mem.recs, addr, data)
    ensures var t := RealReaction(k, s, WriteText(addr, data)).0;
            Sound(k, t) && RealReaction(k, t, ReadText(addr, |data|)).1 == Say(HexEncode(data))
  {
    hide RealReaction, Ascii, HexNumber, HexEncode, WriteText, Shadow.Logical, ShadowWrite.Writable;
    WriteHandled(k, s, addr, data);
    var t := Shadow.Write(k.trap, s.mem, addr, data);
    assert Sound(k, s.(mem := t));
    hide Shadow.Write, Sound;
    forall j | 0 <= j < |data| ensures Shadow.Logical(t)(addr + j) == data[j] {
      WriteSeen(k.trap, s.mem, addr, data, addr + j);
    }
    assert Slice(Shadow.Logical(t), addr, |data|) == data;
    ReadTranscript(k, s.(mem := t), addr, |data|);
  }

  /** m and M without a comma get no reply and change nothing. */
  lemma NoCommaTranscript(k: Setup, s: Machine, letter: byte, rest: seq<byte>)
    requires Sound(k, s) && letter in {Letter('m'), Letter('M')} && Letter(',') !in rest
    ensures RealReaction(k, s, [letter] + rest) == (s, Silence)
  {
    NoCommaSpelled(letter, rest);
    hide MemoryServer.MemCommand, RealReaction;
    MemoryReaction(k, s, [letter] + rest);
  }

  // ---------- breakpoints ----------

  function InsertText(addr: nat, kind: seq<byte>): seq<byte> {
    Ascii("Z0,") + HexNumber(addr) + (Ascii(",") + kind)
  }

  function RemoveText(addr: nat, kind: seq<byte>): seq<byte> {
    Ascii("z0,") + HexNumber(addr) + (Ascii(",") + kind)
  }

  /** Z0 is answered OK, and the trap is in memory at the address. */
  lemma InsertTranscript(k: Setup, s: Machine, addr: nat, kind: seq<byte>)
    requires Sound(k, s) && addr <= 0xffff_ffff
    ensures var (t, reaction) := RealReaction(k, s, InsertText(addr, kind));
            && reaction == Say(Ascii("OK")) && t.regs == s.regs && t.runs == s.runs
            && |t.mem.recs| == |s.mem.recs| + 1 && t.mem.recs[1..] == s.mem.recs
            && t.mem.recs[0].pc == addr && !t.mem.recs[0].reinserting
            && t.mem.recs[0].saved == Slice(s.mem.raw, addr, |k.trap|)
            && Slice(t.mem.raw, addr, |k.trap|) == k.trap
  {
    InsertSpelled(addr, kind);
    Marks();
    hide MemoryServer.MemCommand, RealReaction, Ascii, HexNumber;
    MemoryReaction(k, s, InsertText(addr, kind));
  }

  /** z0 is answered OK; where the newest breakpoint at the address was, its bytes are back. */
  lemma RemoveTranscript(k: Setup, s: Machine, addr: nat, kind: seq<byte>, i: nat)
    requires Sound(k, s) && addr <= 0xffff_ffff && i <= |s.mem.recs|
    requires forall j :: 0 <= j < i ==> s.mem.recs[j].pc != addr
    requires i < |s.mem.recs| ==> s.mem.recs[i].pc == addr
    ensures var (t, reaction) := RealReaction(k, s, RemoveText(addr, kind));
            && reaction == Say(Ascii("OK")) && t.regs == s.regs && t.runs == s.runs
            && if i == |s.mem.recs| then t == s
               else t.mem.recs == s.mem.recs[..i] + s.mem.recs[i + 1..]
                    && Slice(t.mem.raw, addr, |k.trap|) == s.mem.recs[i].saved
  {
    RemoveSpelled(addr, kind);
    Marks();
    hide MemoryServer.MemCommand, RealReaction, Ascii, HexNumber;
    MemoryReaction(k, s, RemoveText(addr, kind));
    assert Shadow.Find(s.mem.recs, addr) == i;
  }

  /** Z0 and then z0 at the same address leave everything as it was. */
  lemma InsertThenRemove(k: Setup, s: Machine, addr: nat, kind: seq<byte>)
    requires Sound(k, s) && addr <= 0xffff_ffff
    ensures var t := RealReaction(k, s, InsertText(addr, kind)).0;
            Sound(k, t)
            && var u := RealReaction(k, t, RemoveText(addr, kind)).0;
               u.mem.recs == s.mem.recs && Same(u.mem.raw, s.mem.raw) && u.regs == s.regs
  {
    InsertSpelled(addr, kind);
    RemoveSpelled(addr, kind);
    hide MemoryServer.MemCommand, RealReaction, Ascii, HexNumber;
    MemoryReaction(k, s, InsertText(addr, kind));
    var t := RealReaction(k, s, InsertText(addr, kind)).0;
    assert Sound(k, t);
    MemoryReaction(k, t, RemoveText(addr, kind));
    assert t.mem.recs[0].pc == addr && Shadow.Find(t.mem.recs, addr) == 0;
  }

  /** Other kinds of breakpoints are refused. */
  lemma OtherPointsTranscript(k: Setup, s: Machine, letter: byte, kind: byte, rest: seq<byte>)
    requires Sound(k, s) && letter in {Letter('Z'), Letter('z')} && kind != Letter('0')
    ensures RealReaction(k, s, [letter, kind] + rest) == (s, Say([]))
  {
    OtherPointsSpelled(letter, kind, rest);
    hide MemoryServer.MemCommand, RealReaction;
    MemoryReaction(k, s, [letter, kind] + rest);
  }

  /** An M whose data is too short or has a bad digit gets no reply and stores nothing. */
  lemma BadDataTranscript(k: Setup, s: Machine, text: seq<byte>)
    requires Sound(k, s) && text != [] && text[0] == Letter('M') && HexCodec.DecodedWrite(text[1..]).Some?
    requires var (args, start) := HexCodec.DecodedWrite(text[1..]).value;
             GoodPairs(text[1..][start..], args.len) < args.len
    ensures RealReaction(k, s, text) == (s, Silence)
  {
    hide HexCodec.DecodedWrite, GoodPairs, RealReaction;
    assert MemoryServer.MemCommand(text) == MemoryServer.Fail;
    MemoryReaction(k, s, text);
  }
}
