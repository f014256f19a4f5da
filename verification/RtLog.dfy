/**
The in-memory log of rtdal_lnx/src/rtdal_log.c: records are appended to a
fixed memory that wraps around, and a flush writes the memory to a file.
*/
module RtLog {
  import opened RingBytes

  /** The last `n` bytes, or all if there are fewer. */
  function Last(s: seq<int>, n: nat): (r: seq<int>)
    ensures |r| == if |s| < n then |s| else n
  {
    if |s| < n then s else s[|s| - n..]
  }

  /** What a flush writes. */
  function Image(memory: seq<int>, wpm: nat, wrapped: nat): seq<int>
    requires wpm <= |memory|
  {
    if wrapped > 0 then memory[wpm..] + memory[..wpm] else memory[..wpm]
  }

  function NextWpm(wpm: nat, len: nat, size: nat): (r: nat)
    requires wpm <= size && len <= size
    ensures r <= size
  {
    if wpm + len > size then wpm + len - size else wpm + len
  }

  lemma ImageIsRing(memory: seq<int>, wpm: nat)
    requires wpm <= |memory|
    ensures memory[wpm..] + memory[..wpm] == Ring(memory, wpm, |memory|)
  {
    RingParts(memory, wpm, |memory|);
  }

  /** Appending to a memory that has wrapped before. */
  lemma AppendWrapped(m: seq<int>, w: nat, data: seq<int>)
    requires w <= |m| && |data| <= |m|
    ensures var w' := NextWpm(w, |data|, |m|);
      Ring(Wrapped(m, w, data), w', |m|) == Ring(m, w, |m|)[|data|..] + data
  {
    var size, len, w' := |m|, |data|, NextWpm(w, |data|, |m|);
    RingAppend(m, w', size - len, data, w);
    RingSplit(m, w, size, len, w');
  }

  /** Appending for the first time around the end. */
  lemma AppendAround(m: seq<int>, w: nat, data: seq<int>)
    requires w <= |m| && |data| <= |m| && w + |data| > |m|
    ensures var w' := NextWpm(w, |data|, |m|);
      Ring(Wrapped(m, w, data), w', |m|) == m[w'..w] + data
  {
    var size, len, w' := |m|, |data|, NextWpm(w, |data|, |m|);
    RingAppend(m, w', size - len, data, w);
    RingParts(m, w', size - len);
  }

  /** The memory shows the last bytes of the history. */
  ghost predicate Shows(memory: seq<int>, wpm: nat, wrapped: nat, history: seq<int>) {
    && wpm <= |memory| && (wrapped == 0 ==> |history| == wpm) && (wrapped > 0 ==> |history| >= |memory|)
    && Image(memory, wpm, wrapped) == Last(history, |memory|)
  }

  lemma LastOfBoth(history: seq<int>, data: seq<int>, n: nat)
    requires |data| <= n <= |history|
    ensures Last(history + data, n) == Last(history, n)[|data|..] + data
  {
  }

  lemma ShowsWrapped(m: seq<int>, w: nat, wrapped: nat, history: seq<int>, data: seq<int>)
    requires Shows(m, w, wrapped, history) && |data| <= |m| && wrapped > 0
    ensures Shows(Wrapped(m, w, data), NextWpm(w, |data|, |m|), wrapped, history + data)
  {
    var m', w' := Wrapped(m, w, data), NextWpm(w, |data|, |m|);
    AppendWrapped(m, w, data);
    ImageIsRing(m, w);
    ImageIsRing(m', w');
    LastOfBoth(history, data, |m|);
  }

  lemma ShowsAround(m: seq<int>, w: nat, history: seq<int>, data: seq<int>)
    requires Shows(m, w, 0, history) && |data| <= |m| && w + |data| > |m|
    ensures Shows(Wrapped(m, w, data), NextWpm(w, |data|, |m|), 1, history + data)
  {
    var m', w' := Wrapped(m, w, data), NextWpm(w, |data|, |m|);
    AppendAround(m, w, data);
    ImageIsRing(m', w');
    assert history == m[..w];
    LastAround(m, w, data, w');
  }

  lemma LastAround(m: seq<int>, w: nat, data: seq<int>, w': nat)
    requires w <= |m| && |data| <= |m| && w + |data| == |m| + w'
    ensures Last(m[..w] + data, |m|) == m[w'..w] + data
  {
  }

  lemma ShowsStraight(m: seq<int>, w: nat, history: seq<int>, data: seq<int>)
    requires Shows(m, w, 0, history) && w + |data| <= |m|
    ensures Shows(Wrapped(m, w, data), w + |data|, 0, history + data)
  {
    assert history == m[..w];
    assert Wrapped(m, w, data)[..w + |data|] == m[..w] + data;
  }

  lemma ShowsNext(m: seq<int>, w: nat, wrapped: nat, wrapped': nat, history: seq<int>, data: seq<int>)
    requires Shows(m, w, wrapped, history) && |data| <= |m|
    requires wrapped' == if w + |data| > |m| then wrapped + 1 else wrapped
    ensures Shows(Wrapped(m, w, data), NextWpm(w, |data|, |m|), wrapped', history + data)
  {
    if wrapped > 0 {
      ShowsWrapped(m, w, wrapped, history, data);
    } else if w + |data| > |m| {
      ShowsAround(m, w, history, data);
    } else {
      ShowsStraight(m, w, history, data);
    }
  }

  class Log {
    const memory: array<int>
    var wpm: nat
    var wrapped: nat
    /** All bytes of all records accepted so far. */
    ghost var history: seq<int>

    ghost predicate Valid()
      reads this, memory
    {
      Shows(memory[..], wpm, wrapped, history)
    }

    /** `rtdal_log_new_opts`: a size of zero stands for the default. */
    constructor (size: nat, defaultSize: nat)
      ensures Valid() && fresh(memory) && history == [] && memory.Length == if size == 0 then defaultSize else size
    {
      memory := new int[if size == 0 then defaultSize else size];
      wpm, wrapped, history := 0, 0, [];
    }

    /** The copying of `rtdal_log_add_`. */
    method CopyIn(data: array<int>, size: nat)
      requires wpm <= memory.Length && data != memory && size <= data.Length && size <= memory.Length
      modifies memory
      ensures memory[..] == Wrapped(old(memory[..]), wpm, data[..size])
    {
      var blen := size;
      if blen > memory.Length - wpm {
        blen := memory.Length - wpm;
      }
      Memcpy(memory, wpm, data, 0, blen);
      if size - blen > 0 {
        Memcpy(memory, 0, data, blen, size - blen);
      }
    }

    /** Moves the write position. */
    method Advance(size: nat)
      requires wpm <= memory.Length && size <= memory.Length
      modifies this`wpm, this`wrapped
      ensures wpm == NextWpm(old(wpm), size, memory.Length)
      ensures wrapped == if old(wpm) + size > memory.Length then old(wrapped) + 1 else old(wrapped)
    {
      wpm := wpm + size;
      if wpm > memory.Length {
        wrapped := wrapped + 1;
        wpm := wpm - memory.Length;
      }
    }

    /** `rtdal_log_add_`: a record that does not fit the memory is dropped, any other is appended. */
    method Add(data: array<int>, size: nat)
      requires Valid() && data != memory && size <= data.Length
      modifies this, memory
      ensures Valid()
      ensures history == old(history) + if size <= memory.Length then data[..size] else []
    {
      if size > memory.Length {
        return;
      }
      ghost var record, wrapped' := data[..size], if wpm + size > memory.Length then wrapped + 1 else wrapped;
      ShowsNext(memory[..], wpm, wrapped, wrapped', history, record);
      CopyIn(data, size);
      Advance(size);
      history := history + record;
    }

    /** `rtdal_log_flush`: the file gets the last bytes of the history, as many as the memory holds. */
    method Flush() returns (file: seq<int>)
      requires Valid()
      ensures |file| == (if |history| < memory.Length then |history| else memory.Length)
      ensures file == history[|history| - |file|..]
    {
      file := [];
      if wrapped > 0 {
        file := memory[wpm..];
      }
      file := file + memory[..wpm];
      assert memory[..][wpm..] == memory[wpm..] && memory[..][..wpm] == memory[..wpm];
    }
  }
}
