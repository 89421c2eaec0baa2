/** Value types shared by every module: options, bytes, machine integers and addresses. */
module Basics {

  datatype Option<+T> = None | Some(value: T)

  type Byte = b: int | 0 <= b < 0x100
  type U32 = v: int | 0 <= v <= U32_MAX
  type U64 = v: int | 0 <= v <= U64_MAX

  const U32_MAX: int := 0xFFFF_FFFF
  const U64_MAX: int := 0xFFFF_FFFF_FFFF_FFFF

  /** `BytesN<32>`: hashes, identifiers and decision words. */
  type Bytes32 = s: seq<Byte> | |s| == 32 witness seq(32, _ => 0)

  /** A ledger address: an account key or a deployed contract. */
  datatype Address = Account(key: nat) | Contract(code: nat)
}

/** What the Soroban host gives an invocation, and how an invocation can end. */
module Host {
  import opened Basics

  /** The environment of one call frame: who signed the transaction, which
      contract (if any) made this call directly, and the ledger time. */
  datatype Env = Env(signers: set<Address>, invoker: Option<Address>, now: U64) {

    /** `require_auth`: a signature, or being the direct invoker. */
    predicate Authorizes(a: Address) {
      a in signers || invoker == Some(a)
    }
  }

  datatype Trap =
    | Unauthorized
    | WrongRoleHolder
    | ApprovalStateNotFound
    | RecordExists
    | RecordNotFound
    | NotTechnician
    | NotCurrentCompleter
    | CompleterNotConfigured
    | WrongCompleter
    | NotPendingApproval
    | NotEligible
    | AttestationNotFound
    | EquipmentExists
    | EquipmentNotFound
    | SnapshotMissing
    | NotOwner
    | VersionNotFound

  /** A call either returns or traps; a trap unwinds every enclosing frame. */
  datatype Result<+T> = Ok(value: T) | Panic(trap: Trap)
}
