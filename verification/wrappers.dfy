/** Failure-compatible result types and the error values of the PKINIT library. */
module Wrappers {

  datatype Option<+T> = None | Some(value: T)

  /** `Ok`/`Err`, usable with Dafny's `:-` operator the way Rust uses `?`. */
  datatype Result<+T, +E> = Ok(value: T) | Err(error: E) {
    predicate IsFailure() {
      Err?
    }

    function PropagateFailure<U>(): Result<U, E>
      requires Err?
    {
      Err(error)
    }

    function Extract(): T
      requires Ok?
    {
      value
    }
  }

  /** `PkinitError`, with the payload texts left out. */
  datatype PkinitError =
    | CmsSignFailed
    | CmsVerifyFailed
    | CmsContentTypeMismatch
    | DhParamsRejected
    | DhAgreementFailed
    | KdfFailed
    | SanMismatch
    | EkuMismatch
    | IdentityLoadFailed
    | ChainValidationFailed
    | KdcCaTrustDenied
    | KdcCaTrustUnknown
    | ClockSkew
    | ChecksumFailed
    | NonceMismatch(expected: int, actual: int)
    | NoSupportedKdf
    | Asn1
    | Ossl
    | Config
    | KemEncapFailed
    | KemDecapFailed
    | KemAlgorithmMismatch
    | KemCiphertextLengthInvalid
    | KemAlgorithmNotSupported
    | NoAcceptableKdf
    | KdfNotOffered
    | NoAcceptableKeyExchange
    | KemNonceNotAllowed
    | DowngradeRejected
    | Unsupported

  type Fallible<T> = Result<T, PkinitError>

  /** The KRB-ERROR a `PkinitError` is reported as. */
  datatype KemErrorClass =
    | EphemeralKeyParamsNotAccepted
    | NoAcceptableKdfClass
    | PreauthFailed
    | InvalidSignature
    | ClientNotTrusted
    | InconsistentKeyPurpose
    | OtherClass

  function ErrorClass(e: PkinitError): KemErrorClass {
    match e
    case KemAlgorithmNotSupported => EphemeralKeyParamsNotAccepted
    case DhParamsRejected => EphemeralKeyParamsNotAccepted
    case NoAcceptableKdf => NoAcceptableKdfClass
    case NoSupportedKdf => NoAcceptableKdfClass
    case KemNonceNotAllowed => PreauthFailed
    case CmsVerifyFailed => InvalidSignature
    case ChainValidationFailed => ClientNotTrusted
    case EkuMismatch => InconsistentKeyPurpose
    case _ => OtherClass
  }

  /** Which errors are reported as which KRB-ERROR; all others have no code of their own. */
  lemma ErrorClasses(e: PkinitError)
    ensures ErrorClass(e) == EphemeralKeyParamsNotAccepted <==> e == KemAlgorithmNotSupported || e == DhParamsRejected
    ensures ErrorClass(e) == NoAcceptableKdfClass <==> e == NoAcceptableKdf || e == NoSupportedKdf
    ensures ErrorClass(e) == PreauthFailed <==> e == KemNonceNotAllowed
    ensures ErrorClass(e) == InvalidSignature <==> e == CmsVerifyFailed
    ensures ErrorClass(e) == ClientNotTrusted <==> e == ChainValidationFailed
    ensures ErrorClass(e) == InconsistentKeyPurpose <==> e == EkuMismatch
  {
  }
}
