/** The pool of µcores: the shared memory cut into equal contiguous regions, one per core. */
module Pool {
  import opened Bytes
  import opened Colors

  /** Sizes fixed by the program. */
  const NumCpus := 64
  const Kilo := 1024
  const Meg := Kilo * Kilo
  const MemSize := 64 * Meg
  const CoreSize := MemSize / 64

  /** A µcore as `New` builds it: its display index, its region, and its accumulator. */
  datatype MicroCore = MicroCore(index: nat, memory: seq<Byte>, acc: Rgb)

  /** `New`: a core over a region; Go's zero value leaves the accumulator black. */
  function New(index: nat, memory: seq<Byte>): MicroCore
  {
    MicroCore(index, memory, Black)
  }

  /** The regions of a list of cores laid end to end. */
  function Joined(cores: seq<MicroCore>): seq<Byte>
    decreases |cores|
  {
    if |cores| == 0 then [] else cores[0].memory + Joined(cores[1..])
  }

  /** Byte `k` lies in the `i`-th region of width `size`. */
  predicate InRegion(size: nat, i: nat, k: nat)
  {
    i * size <= k < i * size + size
  }

  lemma {:induction false} JoinedSnoc(cores: seq<MicroCore>, c: MicroCore)
    ensures Joined(cores + [c]) == Joined(cores) + c.memory
    decreases |cores|
  {
    if |cores| == 0 {
      assert cores + [c] == [c];
    } else {
      assert (cores + [c])[1..] == cores[1..] + [c];
      JoinedSnoc(cores[1..], c);
    }
  }

  lemma MulStep(a: nat, size: nat)
    ensures (a + 1) * size == a * size + size
    ensures a * size >= 0
  {
  }

  /** The loop at the end of `main`: take the first `size` bytes of what is left as the next core's
      region, then drop them, `count` times. */
  method Boot(memory: seq<Byte>, count: nat, size: nat) returns (cpus: seq<MicroCore>)
    requires count * size <= |memory|
    ensures |cpus| == count
    ensures forall i :: 0 <= i < count ==> cpus[i].index == i && cpus[i].acc == Black && |cpus[i].memory| == size
    ensures Joined(cpus) == memory[..count * size]
    ensures forall i :: 0 <= i < count ==>
              i * size + size <= |memory| && cpus[i].memory == memory[i * size..i * size + size]
  {
    var upperHalf := memory;
    cpus := [];
    var i := 0;
    while i < count
      invariant 0 <= i <= count && |cpus| == i
      invariant forall j :: 0 <= j < i ==> cpus[j].index == j && cpus[j].acc == Black && |cpus[j].memory| == size
      invariant Joined(cpus) + upperHalf == memory
      invariant |Joined(cpus)| == i * size
      invariant (count - i) * size <= |upperHalf|
      decreases count - i
    {
      MulStep(i, size);
      MulStep(count - i - 1, size);
      var core := New(i, upperHalf[..size]);
      JoinedSnoc(cpus, core);
      assert Joined(cpus + [core]) + upperHalf[size..] == Joined(cpus) + upperHalf;
      cpus := cpus + [core];
      upperHalf := upperHalf[size..];
      i := i + 1;
    }
    forall j | 0 <= j < count
      ensures j * size + size <= |memory| && cpus[j].memory == memory[j * size..j * size + size]
    {
      MulMono(j + 1, count, size);
      MulStep(j, size);
      assert forall c | c in cpus :: |c.memory| == size;
      forall m | 0 <= m < size
        ensures cpus[j].memory[m] == memory[j * size + m]
      {
        JoinedIndex(cpus, size, j, m);
      }
    }
  }

  /** `main`'s configuration: 64 regions of one megabyte cover the 64-megabyte memory exactly,
      and a region holds a whole number of cells. */
  lemma MainConfiguration()
    ensures NumCpus * CoreSize == MemSize
    ensures CoreSize % CellSize == 0
  {
  }

  /** `main`'s boot: 64 cores whose regions, laid end to end, are the whole memory, each a whole
      number of cells. */
  method BootMain(memory: seq<Byte>) returns (cpus: seq<MicroCore>)
    requires |memory| == MemSize
    ensures |cpus| == NumCpus
    ensures Joined(cpus) == memory
    ensures forall i :: 0 <= i < NumCpus ==>
              cpus[i].index == i && cpus[i].acc == Black && |cpus[i].memory| == CoreSize
    ensures forall c | c in cpus :: |c.memory| % CellSize == 0
  {
    MainConfiguration();
    cpus := Boot(memory, NumCpus, CoreSize);
  }

  lemma {:induction false} JoinedLength(cores: seq<MicroCore>, size: nat)
    requires forall c | c in cores :: |c.memory| == size
    ensures |Joined(cores)| == |cores| * size
    decreases |cores|
  {
    if |cores| > 0 {
      assert forall c | c in cores[1..] :: c in cores;
      JoinedLength(cores[1..], size);
      MulStep(|cores| - 1, size);
    }
  }

  /** Byte `j` of the `i`-th region is byte `i * size + j` of the joined memory. */
  lemma {:induction false} JoinedIndex(cores: seq<MicroCore>, size: nat, i: nat, j: nat)
    requires forall c | c in cores :: |c.memory| == size
    requires i < |cores| && j < size
    ensures i * size + j < |Joined(cores)|
    ensures Joined(cores)[i * size + j] == cores[i].memory[j]
    decreases i
  {
    JoinedLength(cores, size);
    MulStep(i, size);
    MulStep(|cores| - 1, size);
    if i > 0 {
      assert forall c | c in cores[1..] :: c in cores;
      JoinedIndex(cores[1..], size, i - 1, j);
      MulStep(i - 1, size);
    }
  }

  /** The regions do not overlap: byte `k` lies in region `k / size` and in no other. */
  lemma RegionOwner(size: nat, i: nat, k: nat)
    requires size > 0
    ensures InRegion(size, i, k) <==> i == k / size
  {
    var q := k / size;
    assert q * size <= k < q * size + size;
    if i < q {
      MulMono(i + 1, q, size);
      MulStep(i, size);
    } else if i > q {
      MulMono(q + 1, i, size);
      MulStep(q, size);
    }
  }

  lemma MulMono(a: nat, b: nat, size: nat)
    requires a <= b
    ensures a * size <= b * size
  {
    assert b * size == a * size + (b - a) * size;
  }
}
