/** The part arithmetic of a multipart upload. Sizes are unbounded here: the program's are file sizes, and
    the sums below are assumed not to wrap 64 bits.
 */
module Parts {
  import opened Bytes

  const MIN_PART_SIZE: nat := 0x50_0000          // 5 MiB
  const MAX_SINGLE_PUT: nat := 0x1_4000_0000     // 5 GiB

  // part_size_for: the requested size, at least S3's minimum, raised to a whole MiB when the file would
  // need more than 10,000 parts.
  function PartSizeFor(size: nat, requested: nat): (r: nat)
    ensures r >= requested && r >= 5 * 1024 * 1024
  {
    var ps := if requested < MIN_PART_SIZE then MIN_PART_SIZE else requested;
    var needed := (size + 9999) / 10000;
    if ps < needed then (needed + 0xf_ffff) / 0x10_0000 * 0x10_0000 else ps
  }

  function PartCount(size: nat, partSize: nat): nat
    requires partSize > 0
  {
    (size + partSize - 1) / partSize
  }

  // Below this size a file goes in one PUT.
  function Threshold(requested: nat): nat {
    var t := if requested < 1 then 1 else requested;
    if t < MAX_SINGLE_PUT + 1 then t else MAX_SINGLE_PUT + 1
  }

  /** One PUT never carries more than S3 allows, and a multipart upload is never empty. */
  lemma SinglePutFits(size: nat, requested: nat)
    ensures size < Threshold(requested) ==> size <= 5 * 1024 * 1024 * 1024
    ensures size >= Threshold(requested) ==> size > 0
    ensures size >= Threshold(requested) <==>
            size > 5 * 1024 * 1024 * 1024 || (size > 0 && size >= requested)
  {
  }

  // The count is the only one whose parts reach the end of the file with a last part that is not empty.
  lemma CountIsExact(size: nat, partSize: nat, n: nat)
    requires partSize > 0 && size > 0
    ensures n == PartCount(size, partSize) <==> n > 0 && (n - 1) * partSize < size <= n * partSize
  {
    var q, r := (size + partSize - 1) / partSize, (size + partSize - 1) % partSize;
    assert size + partSize - 1 == partSize * q + r;
    assert q * partSize == partSize * q && (q - 1) * partSize == q * partSize - partSize;
    assert (q - 1) * partSize < size <= q * partSize;
    if n > q {
      ProductAtLeast(partSize, n - q);
      ProductMonotone(q, n - 1, partSize);
    } else if 0 < n < q {
      ProductMonotone(n, q - 1, partSize);
    }
  }

  lemma {:induction false} ProductMonotone(a: nat, b: nat, m: nat)
    requires a <= b
    ensures a * m <= b * m
  {
    assert b * m == a * m + (b - a) * m;
    ProductNonNegative(b - a, m);
  }

  lemma ProductNonNegative(a: nat, m: nat)
    ensures a * m >= 0
  {
  }

  /** For every size and request: at most 10,000 parts, at least one; and a size that was raised is a whole
      number of MiB, less than one MiB above any part size that would do. */
  lemma PartSizeIsRight(size: nat, requested: nat, enough: nat)
    requires size > 0
    ensures var ps := PartSizeFor(size, requested);
      && 1 <= PartCount(size, ps) <= 10000
      && (ps > requested && ps > 5 * 1024 * 1024 ==>
            ps % (1024 * 1024) == 0 && (enough * 10000 >= size ==> ps < enough + 1024 * 1024))
  {
    var ps := PartSizeFor(size, requested);
    var needed := (size + 9999) / 10000;
    assert needed * 10000 >= size && (enough * 10000 >= size ==> enough >= needed);
    assert ps >= needed;
    var n := PartCount(size, ps);
    CountIsExact(size, ps, n);
    if n > 10000 {
      ProductMonotone(10000, n - 1, ps);
      assert false;
    }
  }

  // --- The parts of a file ---

  function PartEnd(size: nat, partSize: nat, i: nat): nat {
    if (i + 1) * partSize <= size then (i + 1) * partSize else size
  }

  // The bytes sent for part i (0-based): min(part_size, size - offset) of them from i * part_size.
  function PartOf(file: seq<byte>, partSize: nat, i: nat): seq<byte> {
    if i * partSize <= PartEnd(|file|, partSize, i) then file[i * partSize..PartEnd(|file|, partSize, i)] else []
  }

  function Joined(parts: seq<seq<byte>>): seq<byte> {
    if parts == [] then [] else Joined(parts[..|parts| - 1]) + parts[|parts| - 1]
  }

  function PartsOf(file: seq<byte>, partSize: nat, n: nat): seq<seq<byte>> {
    seq(n, i requires 0 <= i => PartOf(file, partSize, i))
  }

  /** The parts tile the file: each starts where the one before ends, every part but the last is full, the
      last is not empty, and together they are the file. */
  lemma PartsTile(file: seq<byte>, partSize: nat, i: nat)
    requires partSize > 0 && file != [] && i < PartCount(|file|, partSize)
    ensures i * partSize < PartEnd(|file|, partSize, i) <= |file|
    ensures i + 1 < PartCount(|file|, partSize) ==>
              |PartOf(file, partSize, i)| == partSize && PartEnd(|file|, partSize, i) == (i + 1) * partSize
    ensures i + 1 == PartCount(|file|, partSize) ==> PartEnd(|file|, partSize, i) == |file|
    ensures 1 <= |PartOf(file, partSize, i)| <= partSize
  {
    var n := PartCount(|file|, partSize);
    CountIsExact(|file|, partSize, n);
    ProductMonotone(i, n - 1, partSize);
    assert (i + 1) * partSize == i * partSize + partSize;
    if i + 1 < n {
      ProductMonotone(i + 1, n - 1, partSize);
    }
  }

  lemma {:induction false} PartsJoin(file: seq<byte>, partSize: nat, k: nat)
    requires partSize > 0 && file != [] && 0 < k <= PartCount(|file|, partSize)
    ensures Joined(PartsOf(file, partSize, k)) == file[..PartEnd(|file|, partSize, k - 1)]
  {
    hide PartCount, PartEnd;
    var all := PartsOf(file, partSize, k);
    assert all[..k - 1] == PartsOf(file, partSize, k - 1);
    PartsTile(file, partSize, k - 1);
    var from, to := (k - 1) * partSize, PartEnd(|file|, partSize, k - 1);
    assert all[k - 1] == file[from..to];
    if k > 1 {
      PartsJoin(file, partSize, k - 1);
      PartsTile(file, partSize, k - 2);
      assert file[..from] + file[from..to] == file[..to];
    } else {
      assert from == 0 && all[..0] == [];
    }
  }

  /** Put together, the parts are the file. */
  lemma PartsAreTheFile(file: seq<byte>, partSize: nat)
    requires partSize > 0 && file != []
    ensures Joined(PartsOf(file, partSize, PartCount(|file|, partSize))) == file
  {
    var n := PartCount(|file|, partSize);
    CountIsExact(|file|, partSize, n);
    PartsTile(file, partSize, n - 1);
    PartsJoin(file, partSize, n);
  }
}
