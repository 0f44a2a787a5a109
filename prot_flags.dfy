/** Platform-neutral protection flags (`prot_flags`) and their translation to
    the native unix `PROT_*` bit mask. `prot_flags.h` itself is not part of
    this model; the translation below uses the Linux values PROT_READ = 1,
    PROT_WRITE = 2, PROT_EXEC = 4. */
module ProtFlags {

  /** A combination of read, write and execute, or the INVALID sentinel that
      a failed translation or a failed query yields. */
  datatype Flags = Prot(read: bool, write: bool, exec: bool) | Invalid

  const NONE: Flags := Prot(false, false, false)
  const R: Flags := Prot(true, false, false)
  const RW: Flags := Prot(true, true, false)
  const RWX: Flags := Prot(true, true, true)

  const PROT_READ: int := 1
  const PROT_WRITE: int := 2
  const PROT_EXEC: int := 4

  /** `from_prot_flags`: the native mask of a valid flag value. */
  function FromProtFlags(f: Flags): (n: int)
    requires f.Prot?
    ensures 0 <= n < 8
    ensures (n % 2 == 1) == f.read
    ensures ((n / 2) % 2 == 1) == f.write
    ensures (n / 4 == 1) == f.exec
  {
    (if f.read then PROT_READ else 0)
    + (if f.write then PROT_WRITE else 0)
    + (if f.exec then PROT_EXEC else 0)
  }

  /** `to_prot_flags`: a native mask, INVALID when it is not one of the
      eight masks built from the three bits. */
  function ToProtFlags(n: int): (f: Flags)
    ensures f.Invalid? <==> !(0 <= n < 8)
  {
    if 0 <= n < 8 then Prot(n % 2 == 1, (n / 2) % 2 == 1, n / 4 == 1) else Invalid
  }

  /** Translating a valid flag value to native and back gives it back. */
  lemma RoundTripFlags(f: Flags)
    requires f.Prot?
    ensures ToProtFlags(FromProtFlags(f)) == f
  {
  }

  /** Translating a recognised native mask to flags and back gives it back,
      so the translation is injective on both sides. */
  lemma RoundTripNative(n: int)
    requires 0 <= n < 8
    ensures ToProtFlags(n).Prot? && FromProtFlags(ToProtFlags(n)) == n
  {
  }
}
