/** Bytes, and an address space seen as a total function from addresses to bytes. */
module Memory {

  type byte = x: int | 0 <= x < 256

  /** Every address holds a byte: an access that the operating system refuses is
      modelled by `DarwinMemory.Target`, not by a missing address. */
  type Space = int -> byte

  ghost predicate Same(m: Space, n: Space) {
    forall a: int :: m(a) == n(a)
  }

  /** The address space after `data` has been stored at `at`. */
  function Overlay(m: Space, at: int, data: seq<byte>): Space {
    (a: int) => if at <= a < at + |data| then data[a - at] else m(a)
  }

  /** The `n` bytes that start at `at`. */
  function Slice(m: Space, at: int, n: nat): (s: seq<byte>)
    ensures |s| == n
    ensures forall j :: 0 <= j < n ==> s[j] == m(at + j)
  {
    seq(n, (j: nat) => m(at + j))
  }

  /** `buf` holds the bytes from `bufAt` on; overlay it with `data` stored at `at`,
      clipped to the buffer. */
  function Clip(buf: seq<byte>, bufAt: int, at: int, data: seq<byte>): (r: seq<byte>)
    ensures |r| == |buf|
    ensures forall j :: 0 <= j < |buf| ==>
                          r[j] == if at <= bufAt + j < at + |data| then data[bufAt + j - at] else buf[j]
  {
    seq(|buf|, j requires 0 <= j < |buf| =>
      if at <= bufAt + j < at + |data| then data[bufAt + j - at] else buf[j])
  }
}

/** The memory half of the Darwin target (src/darwin-low.c): Mach calls that may be refused,
    then a word-by-word fallback through ptrace. */
module DarwinMemory {
  import opened Memory

  const WORD: int := 4   // sizeof(int)
  const EIO: int := 5
  const EFAULT: int := 14

  class Target {
    /** What the inferior's memory physically holds. */
    var bytes: Space
    var hasTask: bool
    /** Words that PT_READ_D, respectively PT_WRITE_D, refuses. */
    const unreadable: int -> bool
    const unwritable: int -> bool

    constructor (bytes: Space, unreadable: int -> bool, unwritable: int -> bool)
      ensures this.bytes == bytes && hasTask
      ensures this.unreadable == unreadable && this.unwritable == unwritable
    {
      this.bytes, this.hasTask := bytes, true;
      this.unreadable, this.unwritable := unreadable, unwritable;
    }

    /** No access fails. */
    ghost predicate Sound()
      reads this
    {
      hasTask && forall a: int :: !unreadable(a) && !unwritable(a)
    }

    /** vm_read and vm_write either do the whole access or refuse it. */
    method VmRead(at: int, n: nat) returns (ok: bool, data: seq<byte>)
      ensures ok ==> data == Slice(bytes, at, n)
    {
      ok := *;
      data := if ok then Slice(bytes, at, n) else [];
    }

    method VmWrite(at: int, data: seq<byte>) returns (ok: bool)
      modifies this`bytes
      ensures bytes == if ok then Overlay(old(bytes), at, data) else old(bytes)
    {
      ok := *;
      if ok {
        bytes := Overlay(bytes, at, data);
      }
    }

    method PtReadD(at: int) returns (word: seq<byte>, errno: int)
      ensures errno == (if unreadable(at) then EFAULT else 0)
      ensures |word| == WORD
      ensures errno == 0 ==> word == Slice(bytes, at, WORD)
    {
      if unreadable(at) {
        return [255, 255, 255, 255], EFAULT;
      }
      return Slice(bytes, at, WORD), 0;
    }

    method PtWriteD(at: int, word: seq<byte>) returns (errno: int)
      requires |word| == WORD
      modifies this`bytes
      ensures errno == (if unwritable(at) then EFAULT else 0)
      ensures bytes == if errno == 0 then Overlay(old(bytes), at, word) else old(bytes)
    {
      if unwritable(at) {
        return EFAULT;
      }
      bytes := Overlay(bytes, at, word);
      errno := 0;
    }

    /** darwin_read_memory: the first `len` cells of `buf` get the inferior's bytes; on the
        fallback path a word that cannot be read comes back as zeros. */
    method ReadMemory(at: int, buf: array<byte>, len: nat)
      requires len <= buf.Length
      modifies buf
      ensures Sound() ==> buf[..len] == Slice(bytes, at, len)
      ensures forall j :: len <= j < buf.Length ==> buf[j] == old(buf[j])
      ensures forall j :: 0 <= j < len ==>
                            || (buf[j] == if hasTask then bytes(at + j) else 0)
                            || (unreadable(at + j - j % WORD) && buf[j] == 0)
    {
      if !hasTask {
        for j := 0 to len
          invariant forall k :: 0 <= k < j ==> buf[k] == 0
          invariant forall k :: len <= k < buf.Length ==> buf[k] == old(buf[k])
        {
          buf[j] := 0;
        }
        return;
      }
      var ok, data := VmRead(at, len);
      if ok {
        CopyIn(buf, 0, data);
        return;
      }
      var i := 0;
      while i < len
        invariant i % WORD == 0
        invariant forall j :: 0 <= j < i && j < len ==>
                                buf[j] == if unreadable(at + j - j % WORD) then 0 else bytes(at + j)
        invariant forall j :: len <= j < buf.Length ==> buf[j] == old(buf[j])
      {
        var count := if len - i < WORD then len - i else WORD;
        var word, errno := PtReadD(at + i);
        CopyIn(buf, i, if errno != 0 then [0, 0, 0, 0][..count] else word[..count]);
        i := i + WORD;
      }
    }

    /** darwin_write_memory: a result of 0 means that exactly `[at, at + |data|)` changed, whatever
        the alignment and length; an error means that the words before the refused one were stored. */
    method WriteMemory(at: int, data: seq<byte>) returns (res: int)
      modifies this`bytes
      ensures Sound() ==> res == 0
      ensures res == 0 ==> hasTask && Same(bytes, Overlay(old(bytes), at, data))
      ensures res != 0 ==>
                || (!hasTask && bytes == old(bytes))
                || (exists k: nat {:trigger data[..k]} ::
                      && k % WORD == 0 && k < |data|
                      && (unwritable(at + k) || (|data| - k < WORD && unreadable(at + k)))
                      && Same(bytes, Overlay(old(bytes), at, data[..k])))
    {
      if !hasTask {
        return EIO;
      }
      var ok := VmWrite(at, data);
      if !ok {
        var unprotected: bool := *;   // vm_protect
        if unprotected {
          ok := VmWrite(at, data);
        }
      }
      if ok {
        return 0;
      }
      var i := 0;
      while i < |data|
        invariant i % WORD == 0
        invariant Same(bytes, Overlay(old(bytes), at, if i < |data| then data[..i] else data))
      {
        var count := if |data| - i < WORD then |data| - i else WORD;
        var errno := StoreWord(at + i, data[i..i + count]);
        if errno != 0 {
          return errno;
        }
        i := i + WORD;
      }
      return 0;
    }

    /** One round of the fallback: a whole word is stored as it is, a shorter tail is merged
        into the word read back from the inferior. */
    method StoreWord(at: int, part: seq<byte>) returns (errno: int)
      requires 0 < |part| <= WORD
      modifies this`bytes
      ensures errno == 0 ==> Same(bytes, Overlay(old(bytes), at, part))
      ensures errno != 0 ==>
                && bytes == old(bytes)
                && (unwritable(at) || (|part| < WORD && unreadable(at)))
    {
      var word := [0, 0, 0, 0];
      if |part| < WORD {
        word, errno := PtReadD(at);
        if errno != 0 {
          return;
        }
      }
      word := part + word[|part|..];
      errno := PtWriteD(at, word);
    }

    /** memcpy into an array. */
    static method CopyIn(buf: array<byte>, offset: nat, data: seq<byte>)
      requires offset + |data| <= buf.Length
      modifies buf
      ensures forall j :: 0 <= j < buf.Length ==>
                            buf[j] == if offset <= j < offset + |data| then data[j - offset] else old(buf[j])
    {
      for i := 0 to |data|
        invariant forall j :: 0 <= j < buf.Length ==>
                                buf[j] == if offset <= j < offset + i then data[j - offset] else old(buf[j])
      {
        buf[offset + i] := data[i];
      }
    }
  }
}
