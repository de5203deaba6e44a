/** The error values of the client that the modelled functions produce or pass on. */
module SdkErrors {
  datatype SdkError =
    | Base64Invalid
    | DowngradeNotAllowed
    | ExpiredAccessToken
    | ExpiredRefreshToken
    | ExpiredScript
    | HashMismatch
    | InvalidAccessToken
    | InvalidJwks
    | InvalidMachineId
    | InvalidPublicKey
    | InvalidSession
    | InvalidSignature
    | InvalidUpdateInfo(field: string)
    | Io(code: int)
    | UnsupportedSignatureAlg(alg: string)
}
