/** C-level types, status codes and the small wrappers shared by the model of the TPM query module. */
module Common {

  type byte = b: int | 0 <= b < 0x100
  type uint32 = x: int | 0 <= x < 0x1_0000_0000
  type uint64 = x: int | 0 <= x < 0x1_0000_0000_0000_0000

  /** MMI_OK and the Linux errno values the module reports. */
  const MMI_OK: int := 0
  const ENOENT: int := 2
  const E2BIG: int := 7
  const ENOMEM: int := 12
  const EINVAL: int := 22

  /** std::string::npos: the largest 64-bit size_t, which is also what size() - 1 wraps to on an empty string. */
  const NPOS: int := 0xFFFF_FFFF_FFFF_FFFF

  /** A std::string: its size() is a size_t, and no string reaches npos characters. */
  type StdString = s: string | |s| < NPOS

  /** The component and object names of Tpm.h. */
  const TPM_COMPONENT: string := "Tpm"
  const TPM_STATUS: string := "tpmStatus"
  const TPM_VERSION: string := "tpmVersion"
  const TPM_MANUFACTURER: string := "tpmManufacturer"

  datatype Option<+T> = None | Some(value: T)

  /** The result of a C++ call that may throw std::out_of_range. */
  datatype Outcome<+T> = Returned(value: T) | ThrewOutOfRange

  /** A string every character of which fits in one C++ char (a byte). */
  predicate IsByteString(s: string) {
    forall i :: 0 <= i < |s| ==> s[i] as int < 0x100
  }

  function Pow256(n: nat): (p: nat)
    ensures p > 0
  {
    if n == 0 then 1 else 256 * Pow256(n - 1)
  }

  lemma {:induction false} Pow256Monotone(m: nat, n: nat)
    requires m <= n
    ensures Pow256(m) <= Pow256(n)
  {
    if m < n {
      Pow256Monotone(m, n - 1);
    }
  }
}
