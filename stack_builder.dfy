/**
 * Building the initial user stack of a new process: strings, the platform
 * name, the aux vector, the envp and argv pointer arrays and argc, pushed
 * downwards from the stack top. User memory, reached through the new
 * space's page table, is a byte sequence indexed by virtual address that
 * covers everything below the initial stack top. A `usize` is 8 bytes.
 */
module StackBuilder {
  import opened Wrappers
  import opened PageNum
  import opened ByteOrder

  type Memory = seq<byte>

  /** The auxiliary-vector keys the builder itself pushes. */
  const AT_NULL: nat := 0
  const AT_RANDOM: nat := 25

  /** "RISC-V64" followed by a NUL byte. */
  const PLATFORM: seq<byte> := [0x52, 0x49, 0x53, 0x43, 0x2D, 0x56, 0x36, 0x34, 0x00]

  /** The placeholder stored where the random bytes for AT_RANDOM go. */
  const RANDOM_PLACEHOLDER: nat := 0xdeadbeef

  datatype AuxVecEntry = AuxVecEntry(key: nat, value: nat)

  /** A `usize` as it lies in memory: eight bytes, least significant first. */
  function Word(x: nat): (r: seq<byte>)
    ensures |r| == 8
  {
    LittleEndian(x, 8)
  }

  /** `x` is a multiple of `a`, counted off one `a` at a time. */
  ghost predicate Aligned(x: nat, a: nat)
    requires a > 0
    decreases x
  {
    if x < a then x == 0 else Aligned(x - a, a)
  }

  /** `s` is stored at addresses `p`, `p + 1`, ... */
  ghost predicate HoldsAt(m: Memory, p: nat, s: seq<byte>) {
    p + |s| <= |m| && forall i :: 0 <= i < |s| ==> m[p + i] == s[i]
  }

  /** The words, each as eight little-endian bytes, one after the other. */
  function Flatten(w: seq<nat>): (r: seq<byte>)
    ensures |r| == 8 * |w|
  {
    if w == [] then [] else Word(w[0]) + Flatten(w[1..])
  }

  /** The words `w` are stored, little-endian, at `p`, `p + 8`, ... */
  ghost predicate WordsAt(m: Memory, p: nat, w: seq<nat>) {
    HoldsAt(m, p, Flatten(w))
  }

  /** Every string `strs[j]`, NUL-terminated, is stored at `ptrs[j]`. */
  ghost predicate StringsAt(m: Memory, ptrs: seq<nat>, strs: seq<seq<byte>>) {
    |ptrs| == |strs| && forall j :: 0 <= j < |strs| ==> HoldsAt(m, ptrs[j], strs[j] + [0])
  }

  /** `m2` agrees with `m1` on every address at or above `from`. */
  ghost predicate Kept(m1: Memory, m2: Memory, from: nat) {
    |m1| == |m2| && from <= |m1| && forall a :: from <= a < |m1| ==> m1[a] == m2[a]
  }

  /** `m` with `s` written from address `p` on. */
  function Store(m: Memory, p: nat, s: seq<byte>): (r: Memory)
    requires p + |s| <= |m|
    ensures |r| == |m| && HoldsAt(r, p, s)
    ensures forall a :: 0 <= a < |m| && !(p <= a < p + |s|) ==> r[a] == m[a]
  {
    m[..p] + s + m[p + |s|..]
  }

  function Reverse(s: seq<nat>): (r: seq<nat>)
    ensures |r| == |s| && forall i :: 0 <= i < |s| ==> r[i] == s[|s| - 1 - i]
  {
    if s == [] then [] else [s[|s| - 1]] + Reverse(s[..|s| - 1])
  }

  /** Reversing one more element of a prefix puts that element in front. */
  lemma ReverseStep(s: seq<nat>, j: nat, tail: seq<nat>)
    requires j < |s|
    ensures Reverse(s[..j + 1]) + tail == [s[j]] + (Reverse(s[..j]) + tail)
  {
    assert s[..j + 1][..j] == s[..j];
  }

  /** The bytes the NUL-terminated strings take up. */
  function TotalLen(strs: seq<seq<byte>>): nat
  {
    if strs == [] then 0 else |strs[0]| + 1 + TotalLen(strs[1..])
  }

  /** The aux entries as key, value, key, value, ..., followed by `tail`. */
  function AuxWords(auxv: seq<AuxVecEntry>, tail: seq<nat>): (r: seq<nat>)
    ensures |r| == 2 * |auxv| + |tail|
    ensures r[2 * |auxv|..] == tail
  {
    if auxv == [] then tail else [auxv[0].key, auxv[0].value] + AuxWords(auxv[1..], tail)
  }

  /**
   * The words of the finished stack from its top upwards: argc, the argv
   * pointers and NULL, the envp pointers and NULL, the inherited aux entries,
   * AT_RANDOM with its address, and the AT_NULL entry.
   */
  function StackImage(argPtrs: seq<nat>, envPtrs: seq<nat>, auxv: seq<AuxVecEntry>, randomBase: nat): (r: seq<nat>)
    ensures |r| == |argPtrs| + |envPtrs| + 2 * |auxv| + 7
  {
    [|argPtrs|] + (argPtrs + ([0] + (envPtrs + ([0] + AuxWords(auxv, [AT_RANDOM, randomBase, AT_NULL, 0])))))
  }

  /**
   * Where each part of the image sits: argc first, argv from word 1 with its
   * NULL after it, envp after that with its NULL, and the AT_RANDOM and
   * AT_NULL entries as the last four words.
   */
  lemma StackImageLayout(argPtrs: seq<nat>, envPtrs: seq<nat>, auxv: seq<AuxVecEntry>, randomBase: nat)
    ensures var r := StackImage(argPtrs, envPtrs, auxv, randomBase);
      && r[0] == |argPtrs| && r[|argPtrs| + 1] == 0 && r[|argPtrs| + |envPtrs| + 2] == 0
      && (forall j :: 0 <= j < |argPtrs| ==> r[1 + j] == argPtrs[j])
      && (forall j :: 0 <= j < |envPtrs| ==> r[|argPtrs| + 2 + j] == envPtrs[j])
      && r[|r| - 4..] == [AT_RANDOM, randomBase, AT_NULL, 0]
  {
    var tail := AuxWords(auxv, [AT_RANDOM, randomBase, AT_NULL, 0]);
    ImageParts(argPtrs, envPtrs, tail);
    assert tail[|tail| - 4..] == tail[2 * |auxv|..];
  }

  /** The pointer arrays' positions in argc, argv, NULL, envp, NULL, `rest`. */
  lemma ImageParts(argPtrs: seq<nat>, envPtrs: seq<nat>, rest: seq<nat>)
    requires |rest| >= 4
    ensures var r := [|argPtrs|] + (argPtrs + ([0] + (envPtrs + ([0] + rest))));
      && r[0] == |argPtrs| && r[|argPtrs| + 1] == 0 && r[|argPtrs| + |envPtrs| + 2] == 0
      && (forall j :: 0 <= j < |argPtrs| ==> r[1 + j] == argPtrs[j])
      && (forall j :: 0 <= j < |envPtrs| ==> r[|argPtrs| + 2 + j] == envPtrs[j])
      && r[|r| - 4..] == rest[|rest| - 4..]
  {
    var afterEnv := [0] + rest;
    var env := envPtrs + afterEnv;
    var afterArg := [0] + env;
    var arg := argPtrs + afterArg;
    var r := [|argPtrs|] + arg;
    SuffixOfAppend([0], rest, 4);
    SuffixOfAppend(envPtrs, afterEnv, 4);
    SuffixOfAppend([0], env, 4);
    SuffixOfAppend(argPtrs, afterArg, 4);
    SuffixOfAppend([|argPtrs|], arg, 4);
    forall j | 0 <= j < |envPtrs| ensures r[|argPtrs| + 2 + j] == envPtrs[j] {
      assert r[|argPtrs| + 2 + j] == arg[|argPtrs| + 1 + j] == afterArg[1 + j] == env[j];
    }
  }

  /** The last `n` elements of `a + b` are the last `n` of `b`. */
  lemma SuffixOfAppend(a: seq<nat>, b: seq<nat>, n: nat)
    requires n <= |b|
    ensures (a + b)[|a + b| - n..] == b[|b| - n..]
  {
  }

  /** Room the stack needs below its top, alignment slack included. */
  function StackNeed(args: seq<seq<byte>>, envp: seq<seq<byte>>, auxv: seq<AuxVecEntry>): nat
  {
    TotalLen(envp) + TotalLen(args) + VectorsNeed(|args|, |envp|, |auxv|)
  }

  /** Room everything below the strings needs, alignment slack included. */
  function VectorsNeed(nArgs: nat, nEnv: nat, nAux: nat): nat
  {
    7 + |PLATFORM| + 7 + 8 + 15 + 16 + 8 * (nArgs + nEnv + 2 * nAux + 5)
  }

  // ---- alignment ----

  /** Being a multiple, counted off, is having remainder zero. */
  lemma {:induction false} AlignedMod(x: nat, a: nat)
    requires a == 8 || a == 16
    ensures Aligned(x, a) <==> x % a == 0
    decreases x
  {
    if x >= a {
      AlignedMod(x - a, a);
      if a == 8 {
        assert (x - 8) % 8 == x % 8;
      } else {
        assert (x - 16) % 16 == x % 16;
      }
    }
  }

  /** A multiple of 16 is a multiple of 8. */
  lemma {:induction false} Aligned16Is8(x: nat)
    requires Aligned(x, 16)
    ensures Aligned(x, 8)
    decreases x
  {
    if x >= 16 {
      Aligned16Is8(x - 16);
      assert Aligned(x - 8, 8);
    }
  }

  /** Aligning an aligned address down leaves it where it is. */
  lemma AlignDownAligned(x: nat, a: nat)
    requires (a == 8 || a == 16) && Aligned(x, a)
    ensures AlignDown(x, a) == x
  {
    AlignedMod(x, a);
    var r := AlignDown(x, a);
    AlignedMod(r, a);
    AlignedDiff(r, x, a);
  }

  /** Two multiples of `a` less than `a` apart are equal. */
  lemma {:induction false} AlignedDiff(r: nat, x: nat, a: nat)
    requires a > 0 && Aligned(r, a) && Aligned(x, a) && r <= x < r + a
    ensures r == x
    decreases x
  {
    if r >= a {
      AlignedDiff(r - a, x - a, a);
    }
  }

  /** What aligning down gives is aligned. */
  lemma AlignDownIsAligned(x: nat, a: nat)
    requires a == 8 || a == 16
    ensures Aligned(AlignDown(x, a), a)
  {
    AlignedMod(AlignDown(x, a), a);
  }

  /**
   * Going down `n` words from a 16-byte boundary lands on one exactly when
   * `n` is even.
   */
  lemma {:induction false} StackParity(t: nat, n: nat)
    requires Aligned(t, 16) && 8 * n <= t
    ensures Aligned(t - 8 * n, 16) <==> n % 2 == 0
    decreases n
  {
    if n >= 2 {
      StackParity(t - 16, n - 2);
      assert t - 16 - 8 * (n - 2) == t - 8 * n;
    } else if n == 1 {
      Aligned16Is8(t);
      AlignedMod(t, 16);
      AlignedMod(t - 8, 16);
    }
  }

  // ---- memory ----

  lemma KeptTrans(m0: Memory, m1: Memory, m2: Memory, a: nat, b: nat)
    requires Kept(m0, m1, a) && Kept(m1, m2, b) && b <= a
    ensures Kept(m0, m2, a)
  {
  }

  lemma HoldsKept(m1: Memory, m2: Memory, from: nat, p: nat, s: seq<byte>)
    requires HoldsAt(m1, p, s) && Kept(m1, m2, from) && from <= p
    ensures HoldsAt(m2, p, s)
  {
  }

  lemma HoldsConcat(m: Memory, p: nat, a: seq<byte>, b: seq<byte>)
    requires HoldsAt(m, p, a) && HoldsAt(m, p + |a|, b)
    ensures HoldsAt(m, p, a + b)
  {
    forall i | 0 <= i < |a + b| ensures m[p + i] == (a + b)[i] {
      if i >= |a| {
        assert m[p + |a| + (i - |a|)] == b[i - |a|];
      }
    }
  }

  lemma HoldsSplit(m: Memory, p: nat, a: seq<byte>, b: seq<byte>)
    requires HoldsAt(m, p, a + b)
    ensures HoldsAt(m, p, a) && HoldsAt(m, p + |a|, b)
  {
    forall i | 0 <= i < |a| ensures m[p + i] == a[i] {
      assert (a + b)[i] == a[i];
    }
    forall i | 0 <= i < |b| ensures m[p + |a| + i] == b[i] {
      assert (a + b)[|a| + i] == b[i];
    }
  }

  lemma WordsKept(m1: Memory, m2: Memory, from: nat, p: nat, w: seq<nat>)
    requires WordsAt(m1, p, w) && Kept(m1, m2, from) && from <= p
    ensures WordsAt(m2, p, w)
  {
    HoldsKept(m1, m2, from, p, Flatten(w));
  }

  lemma {:induction false} StringsKept(m1: Memory, m2: Memory, from: nat, ptrs: seq<nat>, strs: seq<seq<byte>>)
    requires StringsAt(m1, ptrs, strs) && Kept(m1, m2, from)
    requires forall j :: 0 <= j < |ptrs| ==> from <= ptrs[j]
    ensures StringsAt(m2, ptrs, strs)
  {
    forall j | 0 <= j < |strs| ensures HoldsAt(m2, ptrs[j], strs[j] + [0]) {
      HoldsKept(m1, m2, from, ptrs[j], strs[j] + [0]);
    }
  }

  /** A word stored just below a stored run of words extends the run downwards. */
  lemma WordsCons(m: Memory, p: nat, x: nat, w: seq<nat>)
    requires p >= 8 && HoldsAt(m, p - 8, Word(x)) && WordsAt(m, p, w)
    ensures WordsAt(m, p - 8, [x] + w)
  {
    assert ([x] + w)[1..] == w;
    HoldsConcat(m, p - 8, Word(x), Flatten(w));
  }

  /** A stored two-word entry is a run of two words. */
  lemma PairWords(m: Memory, p: nat, a: nat, b: nat)
    requires HoldsAt(m, p, Word(a) + Word(b))
    ensures WordsAt(m, p, [a, b])
  {
    assert [a, b][1..] == [b] && [b][1..] == [];
    assert Flatten([a, b]) == Word(a) + Word(b);
  }

  lemma {:induction false} TotalLenBound(strs: seq<seq<byte>>, i: nat)
    requires i < |strs|
    ensures TotalLen(strs[i..]) == |strs[i]| + 1 + TotalLen(strs[i + 1..])
    ensures TotalLen(strs[i..]) <= TotalLen(strs)
  {
    assert strs[i..][1..] == strs[i + 1..];
    if i > 0 {
      TotalLenBound(strs[1..], i - 1);
      assert strs[1..][i - 1..] == strs[i..];
    }
  }

  class MemorySpaceBuilder {
    var entryPc: nat
    var stackTop: nat
    var argc: nat
    var argvBase: nat
    var envpBase: nat
    var auxv: seq<AuxVecEntry>
    var memory: Memory

    /** The stack lies below the end of the modelled memory. */
    ghost predicate Valid()
      reads this
    {
      stackTop <= |memory|
    }

    /** A builder for a fresh space: nothing pushed, argc zero, both bases at the top. */
    constructor (entryPc: nat, stackTop: nat, auxv: seq<AuxVecEntry>, memory: Memory)
      requires stackTop <= |memory|
      ensures Valid()
      ensures this.entryPc == entryPc && this.stackTop == stackTop && this.auxv == auxv
      ensures argc == 0 && argvBase == stackTop && envpBase == stackTop && this.memory == memory
    {
      this.entryPc := entryPc;
      this.stackTop := stackTop;
      this.auxv := auxv;
      argc, argvBase, envpBase := 0, stackTop, stackTop;
      this.memory := memory;
    }

    /**
     * Moves the top down by the value's size, aligns it down, and stores the
     * value's bytes there.
     */
    method Push(value: seq<byte>, align: nat)
      requires IsAlignment(align) && |value| <= stackTop
      requires Valid()
      modifies this
      ensures Valid()
      ensures stackTop == AlignDown(old(stackTop) - |value|, align)
      ensures stackTop + |value| <= old(stackTop)
      ensures HoldsAt(memory, stackTop, value)
      ensures Kept(old(memory), memory, old(stackTop))
      ensures entryPc == old(entryPc) && argc == old(argc) && argvBase == old(argvBase)
      ensures envpBase == old(envpBase) && auxv == old(auxv)
    {
      var top := AlignDown(stackTop - |value|, align);
      memory := Store(memory, top, value);
      stackTop := top;
    }

    /** Pushes a `u8`. */
    method PushByte(b: byte)
      requires 1 <= stackTop
      requires Valid()
      modifies this
      ensures Valid()
      ensures stackTop == old(stackTop) - 1
      ensures HoldsAt(memory, stackTop, [b])
      ensures Kept(old(memory), memory, old(stackTop))
      ensures entryPc == old(entryPc) && argc == old(argc) && argvBase == old(argvBase)
      ensures envpBase == old(envpBase) && auxv == old(auxv)
    {
      Push([b], 1);
    }

    /** Pushes a `usize` onto an 8-aligned top. */
    method PushWord(x: nat)
      requires 8 <= stackTop && Aligned(stackTop, 8)
      requires Valid()
      modifies this
      ensures Valid()
      ensures stackTop == old(stackTop) - 8 && Aligned(stackTop, 8)
      ensures HoldsAt(memory, stackTop, Word(x))
      ensures Kept(old(memory), memory, old(stackTop))
      ensures entryPc == old(entryPc) && argc == old(argc) && argvBase == old(argvBase)
      ensures envpBase == old(envpBase) && auxv == old(auxv)
    {
      AlignDownAligned(stackTop - 8, 8);
      Push(Word(x), 8);
    }

    /** Pushes a word directly below a stored run of words, extending the run. */
    method PushWordOnto(x: nat, ghost above: seq<nat>)
      requires 8 <= stackTop && Aligned(stackTop, 8)
      requires WordsAt(memory, stackTop, above)
      requires Valid()
      modifies this
      ensures Valid()
      ensures stackTop == old(stackTop) - 8 && Aligned(stackTop, 8)
      ensures WordsAt(memory, stackTop, [x] + above)
      ensures Kept(old(memory), memory, old(stackTop))
      ensures entryPc == old(entryPc) && argc == old(argc) && argvBase == old(argvBase)
      ensures envpBase == old(envpBase) && auxv == old(auxv)
    {
      ghost var before := memory;
      PushWord(x);
      WordsKept(before, memory, stackTop + 8, stackTop + 8, above);
      WordsCons(memory, stackTop + 8, x, above);
    }

    /** Pushes the bytes from last to first, so that they end up in order. */
    method PushBytes(s: seq<byte>)
      requires |s| <= stackTop
      requires Valid()
      modifies this
      ensures Valid()
      ensures stackTop == old(stackTop) - |s|
      ensures HoldsAt(memory, stackTop, s)
      ensures Kept(old(memory), memory, old(stackTop))
      ensures entryPc == old(entryPc) && argc == old(argc) && argvBase == old(argvBase)
      ensures envpBase == old(envpBase) && auxv == old(auxv)
    {
      var i := |s|;
      while i > 0
        invariant 0 <= i <= |s|
        invariant stackTop == old(stackTop) - (|s| - i)
        invariant HoldsAt(memory, stackTop, s[i..])
        invariant Kept(old(memory), memory, old(stackTop))
        invariant entryPc == old(entryPc) && argc == old(argc) && argvBase == old(argvBase)
        invariant envpBase == old(envpBase) && auxv == old(auxv)
      {
        ghost var before := memory;
        i := i - 1;
        PushByte(s[i]);
        KeptTrans(old(memory), before, memory, old(stackTop), stackTop + 1);
        HoldsKept(before, memory, stackTop + 1, stackTop + 1, s[i + 1..]);
        HoldsConcat(memory, stackTop, [s[i]], s[i + 1..]);
        assert s[i..] == [s[i]] + s[i + 1..];
      }
      assert s[0..] == s;
    }

    /** Pushes a NUL and then the string's bytes from last to first; returns where it starts. */
    method PushString(s: seq<byte>) returns (ptr: nat)
      requires |s| + 1 <= stackTop
      requires Valid()
      modifies this
      ensures Valid()
      ensures ptr == stackTop == old(stackTop) - |s| - 1
      ensures HoldsAt(memory, ptr, s + [0])
      ensures Kept(old(memory), memory, old(stackTop))
      ensures entryPc == old(entryPc) && argc == old(argc) && argvBase == old(argvBase)
      ensures envpBase == old(envpBase) && auxv == old(auxv)
    {
      PushByte(0);
      ghost var mNul, tNul := memory, stackTop;
      PushBytes(s);
      KeptTrans(old(memory), mNul, memory, old(stackTop), tNul);
      HoldsKept(mNul, memory, tNul, tNul, [0]);
      HoldsConcat(memory, stackTop, s, [0]);
      ptr := stackTop;
    }

    /**
     * Pushes the strings from last to first, recording where each one
     * starts; the result lists the last string's address first.
     */
    method PushStrings(strs: seq<seq<byte>>) returns (ptrs: seq<nat>)
      requires TotalLen(strs) <= stackTop
      requires Valid()
      modifies this
      ensures Valid()
      ensures stackTop == old(stackTop) - TotalLen(strs) && |ptrs| == |strs|
      ensures StringsAt(memory, Reverse(ptrs), strs)
      ensures forall j :: 0 <= j < |ptrs| ==> stackTop <= ptrs[j]
      ensures Kept(old(memory), memory, old(stackTop))
      ensures entryPc == old(entryPc) && argc == old(argc) && argvBase == old(argvBase)
      ensures envpBase == old(envpBase) && auxv == old(auxv)
    {
      ptrs := [];
      var i := |strs|;
      while i > 0
        invariant 0 <= i <= |strs| && |ptrs| == |strs| - i
        invariant stackTop == old(stackTop) - TotalLen(strs[i..])
        invariant forall j :: 0 <= j < |ptrs| ==> stackTop <= ptrs[j]
        invariant forall j :: 0 <= j < |ptrs| ==> HoldsAt(memory, ptrs[j], strs[|strs| - 1 - j] + [0])
        invariant Kept(old(memory), memory, old(stackTop))
        invariant entryPc == old(entryPc) && argc == old(argc) && argvBase == old(argvBase)
        invariant envpBase == old(envpBase) && auxv == old(auxv)
      {
        ghost var before := memory;
        ghost var top := stackTop;
        i := i - 1;
        assert strs[i..][1..] == strs[i + 1..];
        TotalLenBound(strs, i);
        var p := PushString(strs[i]);
        KeptTrans(old(memory), before, memory, old(stackTop), top);
        forall j | 0 <= j < |ptrs| ensures HoldsAt(memory, ptrs[j], strs[|strs| - 1 - j] + [0]) {
          HoldsKept(before, memory, top, ptrs[j], strs[|strs| - 1 - j] + [0]);
        }
        ptrs := ptrs + [p];
      }
      assert strs[0..] == strs;
    }

    /** Pushes the words in order, so the last one ends up lowest. */
    method PushWords(words: seq<nat>, ghost above: seq<nat>)
      requires 8 * |words| <= stackTop && Aligned(stackTop, 8)
      requires WordsAt(memory, stackTop, above)
      requires Valid()
      modifies this
      ensures Valid()
      ensures stackTop == old(stackTop) - 8 * |words| && Aligned(stackTop, 8)
      ensures WordsAt(memory, stackTop, Reverse(words) + above)
      ensures Kept(old(memory), memory, old(stackTop))
      ensures entryPc == old(entryPc) && argc == old(argc) && argvBase == old(argvBase)
      ensures envpBase == old(envpBase) && auxv == old(auxv)
    {
      assert Reverse(words[..0]) + above == above;
      for j := 0 to |words|
        invariant stackTop == old(stackTop) - 8 * j && Aligned(stackTop, 8)
        invariant WordsAt(memory, stackTop, Reverse(words[..j]) + above)
        invariant Kept(old(memory), memory, old(stackTop))
        invariant entryPc == old(entryPc) && argc == old(argc) && argvBase == old(argvBase)
        invariant envpBase == old(envpBase) && auxv == old(auxv)
      {
        ghost var before := memory;
        ghost var top := stackTop;
        PushWordOnto(words[j], Reverse(words[..j]) + above);
        KeptTrans(old(memory), before, memory, old(stackTop), top);
        ReverseStep(words, j, above);
      }
      assert words[..|words|] == words;
    }

    /**
     * Lays out the initial stack for `args` and `envp` and records argc and
     * where the argv and envp arrays start. The inherited aux entries are
     * moved out of the builder onto the stack.
     */
    method InitStack(args: seq<seq<byte>>, envp: seq<seq<byte>>)
      returns (ghost argPtrs: seq<nat>, ghost envPtrs: seq<nat>, ghost randomBase: nat)
      requires StackNeed(args, envp, auxv) <= stackTop
      requires Valid()
      modifies this
      ensures Valid()
      ensures argc == |args| && auxv == [] && entryPc == old(entryPc)
      ensures Aligned(stackTop, 8) && argvBase == stackTop + 8 && envpBase == argvBase + 8 * (|args| + 1)
      ensures Aligned(stackTop, 16) <==> (|args| + |envp|) % 2 == 1
      ensures WordsAt(memory, stackTop, StackImage(argPtrs, envPtrs, old(auxv), randomBase))
      ensures StringsAt(memory, argPtrs, args) && StringsAt(memory, envPtrs, envp)
      ensures HoldsAt(memory, randomBase, Word(RANDOM_PLACEHOLDER) + PLATFORM)
      ensures stackTop <= old(stackTop) && Kept(old(memory), memory, old(stackTop))
    {
      var envps, argvs := PushStringTables(args, envp);
      ghost var midMemory, midTop := memory, stackTop;
      envPtrs, argPtrs := Reverse(envps), Reverse(argvs);
      randomBase := PushVectors(envps, argvs, args, envp);
      KeptTrans(old(memory), midMemory, memory, old(stackTop), midTop);
    }

    /**
     * Pushes the environment strings and then the argument strings, each
     * NUL-terminated; returns their addresses, last string first.
     */
    method PushStringTables(args: seq<seq<byte>>, envp: seq<seq<byte>>) returns (envps: seq<nat>, argvs: seq<nat>)
      requires TotalLen(envp) + TotalLen(args) <= stackTop
      requires Valid()
      modifies this
      ensures Valid()
      ensures stackTop == old(stackTop) - TotalLen(envp) - TotalLen(args)
      ensures |envps| == |envp| && |argvs| == |args|
      ensures StringsAt(memory, Reverse(envps), envp) && StringsAt(memory, Reverse(argvs), args)
      ensures forall j :: 0 <= j < |envp| ==> stackTop <= Reverse(envps)[j]
      ensures forall j :: 0 <= j < |args| ==> stackTop <= Reverse(argvs)[j]
      ensures Kept(old(memory), memory, old(stackTop))
      ensures entryPc == old(entryPc) && argc == old(argc) && argvBase == old(argvBase)
      ensures envpBase == old(envpBase) && auxv == old(auxv)
    {
      envps := PushStrings(envp);
      ghost var mEnv, tEnv := memory, stackTop;
      argvs := PushStrings(args);
      StringsKept(mEnv, memory, tEnv, Reverse(envps), envp);
      KeptTrans(old(memory), mEnv, memory, old(stackTop), tEnv);
    }

    /**
     * Everything after the strings: the platform name and the AT_RANDOM
     * placeholder, the aux vector, then envp, argv and argc.
     */
    method PushVectors(envps: seq<nat>, argvs: seq<nat>, ghost args: seq<seq<byte>>, ghost envp: seq<seq<byte>>)
      returns (randomBase: nat)
      requires |envps| == |envp| && |argvs| == |args|
      requires VectorsNeed(|args|, |envp|, |auxv|) <= stackTop
      requires StringsAt(memory, Reverse(envps), envp) && StringsAt(memory, Reverse(argvs), args)
      requires forall j :: 0 <= j < |envp| ==> stackTop <= Reverse(envps)[j]
      requires forall j :: 0 <= j < |args| ==> stackTop <= Reverse(argvs)[j]
      requires Valid()
      modifies this
      ensures Valid()
      ensures argc == |args| && auxv == [] && entryPc == old(entryPc)
      ensures Aligned(stackTop, 8) && argvBase == stackTop + 8 && envpBase == argvBase + 8 * (|args| + 1)
      ensures Aligned(stackTop, 16) <==> (|args| + |envp|) % 2 == 1
      ensures WordsAt(memory, stackTop, StackImage(Reverse(argvs), Reverse(envps), old(auxv), randomBase))
      ensures HoldsAt(memory, randomBase, Word(RANDOM_PLACEHOLDER) + PLATFORM)
      ensures StringsAt(memory, Reverse(envps), envp) && StringsAt(memory, Reverse(argvs), args)
      ensures Kept(old(memory), memory, old(stackTop))
      ensures stackTop <= old(stackTop)
    {
      var entries := auxv;
      randomBase := PushPlatformAndRandom();
      ghost var mRand, tRand := memory, stackTop;
      ghost var image, nullEntry := PushAuxVector(randomBase);
      ghost var mAux, tAux := memory, stackTop;
      image := PushPointerArrays(envps, argvs, image);
      KeptTrans(mRand, mAux, memory, tRand, tAux);
      HoldsKept(mRand, memory, tRand, randomBase, Word(RANDOM_PLACEHOLDER) + PLATFORM);
      KeptTrans(old(memory), mRand, memory, old(stackTop), tRand);
      FinalParity(nullEntry, stackTop, |entries|, |args|, |envp|);
      StringsKept(old(memory), memory, old(stackTop), Reverse(envps), envp);
      StringsKept(old(memory), memory, old(stackTop), Reverse(argvs), args);
    }

    /**
     * Aligns the top to 8 bytes, stores the platform name so that it starts
     * on an 8-byte boundary, and pushes the placeholder word for AT_RANDOM;
     * returns where the placeholder is.
     */
    method PushPlatformAndRandom() returns (auxRandomBase: nat)
      requires 7 + |PLATFORM| + 7 + 8 <= stackTop
      requires Valid()
      modifies this
      ensures Valid()
      ensures auxRandomBase == stackTop && Aligned(stackTop, 8)
      ensures old(stackTop) <= stackTop + 7 + |PLATFORM| + 7 + 8
      ensures stackTop + 8 + |PLATFORM| <= old(stackTop)
      ensures HoldsAt(memory, auxRandomBase, Word(RANDOM_PLACEHOLDER) + PLATFORM)
      ensures Kept(old(memory), memory, old(stackTop))
      ensures entryPc == old(entryPc) && argc == old(argc) && argvBase == old(argvBase)
      ensures envpBase == old(envpBase) && auxv == old(auxv)
    {
      stackTop := AlignDown(stackTop, 8);
      stackTop := AlignDown(stackTop - |PLATFORM|, 8);
      ghost var platformBase := stackTop;
      AlignDownIsAligned(old(stackTop), 8);
      AlignDownIsAligned(AlignDown(old(stackTop), 8) - |PLATFORM|, 8);
      stackTop := stackTop + |PLATFORM|;
      PushBytes(PLATFORM);
      ghost var mPlat := memory;
      PushWord(RANDOM_PLACEHOLDER);
      auxRandomBase := stackTop;
      HoldsKept(mPlat, memory, platformBase, platformBase, PLATFORM);
      KeptTrans(old(memory), mPlat, memory, old(stackTop), platformBase);
      HoldsConcat(memory, auxRandomBase, Word(RANDOM_PLACEHOLDER), PLATFORM);
    }

    /**
     * Aligns the top to 16 bytes and pushes the aux vector: the AT_NULL
     * entry, AT_RANDOM pointing at `auxRandomBase`, then the inherited
     * entries, which leave the builder. Returns the words stored and where
     * the AT_NULL entry lies.
     */
    method PushAuxVector(auxRandomBase: nat) returns (ghost image: seq<nat>, ghost nullEntry: nat)
      requires 15 + 16 + 8 * (2 * |auxv| + 2) <= stackTop && Aligned(stackTop, 8)
      requires Valid()
      modifies this
      ensures Valid()
      ensures image == AuxWords(old(auxv), [AT_RANDOM, auxRandomBase, AT_NULL, 0])
      ensures WordsAt(memory, stackTop, image)
      ensures Aligned(nullEntry, 16) && nullEntry == stackTop + 8 * (2 * |old(auxv)| + 2) && Aligned(stackTop, 8)
      ensures old(stackTop) <= stackTop + 15 + 16 + 8 * (2 * |old(auxv)| + 2) && stackTop <= old(stackTop)
      ensures Kept(old(memory), memory, old(stackTop))
      ensures auxv == [] && entryPc == old(entryPc) && argc == old(argc)
      ensures argvBase == old(argvBase) && envpBase == old(envpBase)
    {
      var entries := auxv;
      nullEntry := PushAuxTail(auxRandomBase);
      ghost var mTail, tRandom := memory, stackTop;
      image := [AT_RANDOM, auxRandomBase, AT_NULL, 0];
      auxv := [];
      PushAuxEntries(entries, image);
      image := AuxWords(entries, image);
      KeptTrans(old(memory), mTail, memory, old(stackTop), tRandom);
    }

    /** Aligns the top to 16 bytes, then pushes the AT_NULL entry and the AT_RANDOM entry. */
    method PushAuxTail(auxRandomBase: nat) returns (ghost nullEntry: nat)
      requires 15 + 32 <= stackTop
      requires Valid()
      modifies this
      ensures Valid()
      ensures nullEntry == stackTop + 16 && Aligned(nullEntry, 16) && Aligned(stackTop, 8)
      ensures old(stackTop) <= stackTop + 15 + 32 && stackTop + 32 <= old(stackTop)
      ensures WordsAt(memory, stackTop, [AT_RANDOM, auxRandomBase, AT_NULL, 0])
      ensures Kept(old(memory), memory, old(stackTop))
      ensures auxv == old(auxv) && entryPc == old(entryPc) && argc == old(argc)
      ensures argvBase == old(argvBase) && envpBase == old(envpBase)
    {
      stackTop := AlignDown(stackTop, 16);
      ghost var t16 := stackTop;
      AlignDownIsAligned(old(stackTop), 16);
      Aligned16Is8(t16);
      assert Aligned(t16 - 16, 16);
      Aligned16Is8(t16 - 16);
      AlignDownAligned(t16 - 16, 8);
      Push(Word(AT_NULL) + Word(0), 8);
      ghost var mNull := memory;
      nullEntry := stackTop;
      PairWords(memory, stackTop, AT_NULL, 0);
      PushWordOnto(auxRandomBase, [AT_NULL, 0]);
      PushWordOnto(AT_RANDOM, [auxRandomBase, AT_NULL, 0]);
      KeptTrans(old(memory), mNull, memory, old(stackTop), nullEntry);
    }

    /** Pushes an entry's value and then its key below a stored run of words. */
    method PushAuxEntry(e: AuxVecEntry, ghost above: seq<nat>)
      requires 16 <= stackTop && Aligned(stackTop, 8)
      requires WordsAt(memory, stackTop, above)
      requires Valid()
      modifies this
      ensures Valid()
      ensures stackTop == old(stackTop) - 16 && Aligned(stackTop, 8)
      ensures WordsAt(memory, stackTop, [e.key, e.value] + above)
      ensures Kept(old(memory), memory, old(stackTop))
      ensures auxv == old(auxv) && entryPc == old(entryPc) && argc == old(argc)
      ensures argvBase == old(argvBase) && envpBase == old(envpBase)
    {
      PushWordOnto(e.value, above);
      ghost var mid, t := memory, stackTop;
      PushWordOnto(e.key, [e.value] + above);
      KeptTrans(old(memory), mid, memory, old(stackTop), t);
      assert [e.key] + ([e.value] + above) == [e.key, e.value] + above;
    }

    /** Pushes the entries from last to first, value before key, below a stored run of words. */
    method PushAuxEntries(entries: seq<AuxVecEntry>, ghost above: seq<nat>)
      requires 16 * |entries| <= stackTop && Aligned(stackTop, 8)
      requires WordsAt(memory, stackTop, above)
      requires Valid()
      modifies this
      ensures Valid()
      ensures stackTop == old(stackTop) - 16 * |entries| && Aligned(stackTop, 8)
      ensures WordsAt(memory, stackTop, AuxWords(entries, above))
      ensures Kept(old(memory), memory, old(stackTop))
      ensures auxv == old(auxv) && entryPc == old(entryPc) && argc == old(argc)
      ensures argvBase == old(argvBase) && envpBase == old(envpBase)
    {
      var i := |entries|;
      ghost var image := above;
      while i > 0
        invariant 0 <= i <= |entries|
        invariant stackTop == old(stackTop) - 16 * (|entries| - i) && Aligned(stackTop, 8)
        invariant image == AuxWords(entries[i..], above)
        invariant WordsAt(memory, stackTop, image)
        invariant Kept(old(memory), memory, old(stackTop))
        invariant auxv == old(auxv) && entryPc == old(entryPc) && argc == old(argc)
        invariant argvBase == old(argvBase) && envpBase == old(envpBase)
      {
        ghost var before := memory;
        i := i - 1;
        PushAuxEntry(entries[i], image);
        KeptTrans(old(memory), before, memory, old(stackTop), stackTop + 16);
        assert entries[i..][1..] == entries[i + 1..];
        image := [entries[i].key, entries[i].value] + image;
      }
      assert entries[0..] == entries;
    }

    /**
     * Pushes NULL and the envp pointers, records the envp base, pushes NULL
     * and the argv pointers, records the argv base, and pushes argc. The
     * pointer lists come last string first, so each array ends up in order.
     */
    method PushPointerArrays(envps: seq<nat>, argvs: seq<nat>, ghost above: seq<nat>) returns (ghost image: seq<nat>)
      requires 8 * (|envps| + |argvs| + 3) <= stackTop && Aligned(stackTop, 8)
      requires WordsAt(memory, stackTop, above)
      requires Valid()
      modifies this
      ensures Valid()
      ensures image == [|argvs|] + (Reverse(argvs) + ([0] + (Reverse(envps) + ([0] + above))))
      ensures WordsAt(memory, stackTop, image)
      ensures stackTop == old(stackTop) - 8 * (|envps| + |argvs| + 3) && Aligned(stackTop, 8)
      ensures argvBase == stackTop + 8 && envpBase == argvBase + 8 * (|argvs| + 1)
      ensures argc == |argvs| && entryPc == old(entryPc) && auxv == old(auxv)
      ensures Kept(old(memory), memory, old(stackTop))
    {
      image := PushEnvpArray(envps, above);
      ghost var mEnv, tEnv := memory, stackTop;
      image := PushArgvArray(argvs, image);
      KeptTrans(old(memory), mEnv, memory, old(stackTop), tEnv);
    }

    /** Pushes NULL and the envp pointers, and records where the envp array starts. */
    method PushEnvpArray(envps: seq<nat>, ghost above: seq<nat>) returns (ghost image: seq<nat>)
      requires 8 * (|envps| + 1) <= stackTop && Aligned(stackTop, 8)
      requires WordsAt(memory, stackTop, above)
      requires Valid()
      modifies this
      ensures Valid()
      ensures image == Reverse(envps) + ([0] + above)
      ensures WordsAt(memory, stackTop, image)
      ensures stackTop == old(stackTop) - 8 * (|envps| + 1) && Aligned(stackTop, 8)
      ensures envpBase == stackTop
      ensures argc == old(argc) && argvBase == old(argvBase) && entryPc == old(entryPc) && auxv == old(auxv)
      ensures Kept(old(memory), memory, old(stackTop))
    {
      PushWordOnto(0, above);
      ghost var mNull, tNull := memory, stackTop;
      PushWords(envps, [0] + above);
      image := Reverse(envps) + ([0] + above);
      envpBase := stackTop;
      KeptTrans(old(memory), mNull, memory, old(stackTop), tNull);
    }

    /**
     * Pushes NULL and the argv pointers, records where the argv array
     * starts, and pushes argc.
     */
    method PushArgvArray(argvs: seq<nat>, ghost above: seq<nat>) returns (ghost image: seq<nat>)
      requires 8 * (|argvs| + 2) <= stackTop && Aligned(stackTop, 8)
      requires WordsAt(memory, stackTop, above)
      requires Valid()
      modifies this
      ensures Valid()
      ensures image == [|argvs|] + (Reverse(argvs) + ([0] + above))
      ensures WordsAt(memory, stackTop, image)
      ensures stackTop == old(stackTop) - 8 * (|argvs| + 2) && Aligned(stackTop, 8)
      ensures argvBase == stackTop + 8 && old(stackTop) == argvBase + 8 * (|argvs| + 1)
      ensures argc == |argvs| && envpBase == old(envpBase) && entryPc == old(entryPc) && auxv == old(auxv)
      ensures Kept(old(memory), memory, old(stackTop))
    {
      PushWordOnto(0, above);
      ghost var mNull, tNull := memory, stackTop;
      PushWords(argvs, [0] + above);
      argvBase := stackTop;
      ghost var mArgv, tArgv := memory, stackTop;
      KeptTrans(old(memory), mNull, mArgv, old(stackTop), tNull);
      PushWordOnto(|argvs|, Reverse(argvs) + ([0] + above));
      image := [|argvs|] + (Reverse(argvs) + ([0] + above));
      KeptTrans(old(memory), mArgv, memory, old(stackTop), tArgv);
      argc := |argvs|;
    }
  }

  /**
   * Below the 16-aligned AT_NULL entry lie the AT_RANDOM entry, the aux
   * entries, and then `nArg + nEnv + 3` words; the final top is 16-aligned
   * exactly when `nArg + nEnv` is odd.
   */
  lemma FinalParity(nullEntry: nat, top: nat, nAux: nat, nArg: nat, nEnv: nat)
    requires Aligned(nullEntry, 16)
    requires top + 8 * (2 * nAux + 2) + 8 * (nArg + nEnv + 3) == nullEntry
    ensures Aligned(top, 16) <==> (nArg + nEnv) % 2 == 1
  {
    var n := 2 * nAux + 2 + nArg + nEnv + 3;
    StackParity(nullEntry, n);
    assert top == nullEntry - 8 * n;
  }
}
