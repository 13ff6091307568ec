/** The host record the grid tool builds for each machine, and the orders its sorts rank hosts by. */
module Hosts {
  import opened Text

  /** One machine as `parse_info_table` records it: its name, the NCPU column
      kept as text, the `cuda` and `cuda_cores` resources, memory (in bytes,
      as an integer key) and the queues the host serves. */
  datatype Host = Host(
    name: string,
    cpu: string,
    cuda: int,
    cudaCores: int,
    memory: int,
    queues: seq<string>)

  /** A record field a sort key reads. `Cpu` compares the NCPU text as Python
      compares strings; `CpuCount` compares the number that text spells. */
  datatype Field = Memory | Cpu | CpuCount | CudaCores | Cuda

  /** A sort order: one key ascending or descending (`reverse=True`), or a
      lexicographic combination where `minor` only breaks ties of `major`. */
  datatype Order = Asc(field: Field) | Desc(field: Field) | Then(major: Order, minor: Order)

  /** The key of `a` is strictly below the key of `b`. */
  predicate KeyLess(f: Field, a: Host, b: Host)
  {
    match f
    case Memory => a.memory < b.memory
    case Cpu => StrLess(a.cpu, b.cpu)
    case CpuCount => ParseCount(a.cpu) < ParseCount(b.cpu)
    case CudaCores => a.cudaCores < b.cudaCores
    case Cuda => a.cuda < b.cuda
  }

  /** The two hosts have equal keys. */
  predicate KeySame(f: Field, a: Host, b: Host)
  {
    match f
    case Memory => a.memory == b.memory
    case Cpu => a.cpu == b.cpu
    case CpuCount => ParseCount(a.cpu) == ParseCount(b.cpu)
    case CudaCores => a.cudaCores == b.cudaCores
    case Cuda => a.cuda == b.cuda
  }

  /** Under order `o`, `a` must come strictly before `b`. */
  predicate Before(o: Order, a: Host, b: Host)
  {
    match o
    case Asc(f) => KeyLess(f, a, b)
    case Desc(f) => KeyLess(f, b, a)
    case Then(major, minor) => Before(major, a, b) || (Tied(major, a, b) && Before(minor, a, b))
  }

  /** Under order `o`, `a` and `b` have equal keys, so a stable sort keeps them as they were. */
  predicate Tied(o: Order, a: Host, b: Host)
  {
    match o
    case Asc(f) => KeySame(f, a, b)
    case Desc(f) => KeySame(f, a, b)
    case Then(major, minor) => Tied(major, a, b) && Tied(minor, a, b)
  }

  /** Every single key is a strict weak order: exactly one of less, greater, same. */
  lemma KeyLaws(f: Field, a: Host, b: Host, c: Host)
    ensures !KeyLess(f, a, a) && KeySame(f, a, a)
    ensures KeySame(f, a, b) == KeySame(f, b, a)
    ensures KeyLess(f, a, b) || KeyLess(f, b, a) || KeySame(f, a, b)
    ensures KeyLess(f, a, b) ==> !KeyLess(f, b, a) && !KeySame(f, a, b)
    ensures KeySame(f, a, b) && KeySame(f, b, c) ==> KeySame(f, a, c)
    ensures KeyLess(f, a, b) && KeyLess(f, b, c) ==> KeyLess(f, a, c)
    ensures KeyLess(f, a, b) && KeySame(f, b, c) ==> KeyLess(f, a, c)
    ensures KeySame(f, a, b) && KeyLess(f, b, c) ==> KeyLess(f, a, c)
  {
    if f == Cpu {
      StrLessIrreflexive(a.cpu);
      StrLessTrichotomy(a.cpu, b.cpu);
      if StrLess(a.cpu, b.cpu) && StrLess(b.cpu, c.cpu) {
        StrLessTransitive(a.cpu, b.cpu, c.cpu);
      }
    }
  }

  /** Every order built from keys is a strict weak order whose ties are an
      equivalence, which is what makes a stable sort by it well defined. */
  lemma {:induction false} OrderLaws(o: Order, a: Host, b: Host, c: Host)
    ensures !Before(o, a, a) && Tied(o, a, a)
    ensures Tied(o, a, b) == Tied(o, b, a)
    ensures Before(o, a, b) || Before(o, b, a) || Tied(o, a, b)
    ensures Before(o, a, b) ==> !Before(o, b, a) && !Tied(o, a, b)
    ensures Tied(o, a, b) && Tied(o, b, c) ==> Tied(o, a, c)
    ensures Before(o, a, b) && Before(o, b, c) ==> Before(o, a, c)
    ensures Before(o, a, b) && Tied(o, b, c) ==> Before(o, a, c)
    ensures Tied(o, a, b) && Before(o, b, c) ==> Before(o, a, c)
  {
    match o
    case Asc(f) => KeyLaws(f, a, b, c);
    case Desc(f) => KeyLaws(f, c, b, a); KeyLaws(f, a, b, c);
    case Then(major, minor) =>
      OrderLaws(major, a, b, c);
      OrderLaws(minor, a, b, c);
      OrderLaws(major, b, a, c);
      OrderLaws(minor, b, a, c);
  }

  /** `a` is `b` with some elements left out, the rest in the same order. */
  ghost predicate Subsequence(a: seq<Host>, b: seq<Host>)
  {
    a == [] || (b != [] && ((a[0] == b[0] && Subsequence(a[1..], b[1..])) || Subsequence(a, b[1..])))
  }
}
