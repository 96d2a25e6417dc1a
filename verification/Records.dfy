/** The stored form of a certificate: CertRecord, MakeRecord and the integer conversions around them. */
module Records {
  import opened Common

  const TWO_63: int := 0x8000_0000_0000_0000
  const TWO_64: int := 0x1_0000_0000_0000_0000

  predicate IsInt64(x: int) {
    -TWO_63 <= x < TWO_63
  }

  /** The Go conversion uint64(x). */
  function ToUint64(x: int): (u: nat)
    ensures u < TWO_64
  {
    x % TWO_64
  }

  /** The Go conversion int64(u). */
  function ToInt64(u: nat): (x: int)
    requires u < TWO_64
    ensures IsInt64(x)
  {
    if u < TWO_63 then u else u - TWO_64
  }

  /** No second is lost in the unsigned field, and the field reads as the second itself from the epoch on. */
  lemma Uint64RoundTrip(x: int)
    requires IsInt64(x)
    ensures ToInt64(ToUint64(x)) == x
    ensures ToUint64(x) == x <==> 0 <= x
  {
  }

  /** The fields of an issued certificate that the server reads. Times are unsigned seconds. */
  datatype Cert = Cert(keyId: string, principals: seq<string>, validAfter: nat, validBefore: nat, raw: string)

  predicate ValidCert(cert: Cert) {
    cert.validAfter < TWO_64 && cert.validBefore < TWO_64
  }

  /** A row of issued_certs, without its row id. */
  datatype Record = Record(
    keyId: string,
    principals: seq<string>,
    createdAt: Time,
    expires: Time,
    revoked: bool,
    raw: string,
    message: string)

  function ParseTime(u: nat): Time
    requires u < TWO_64
  {
    FromUnix(ToInt64(u))
  }

  function MakeRecord(cert: Cert): Record
    requires ValidCert(cert)
  {
    Record(cert.keyId, cert.principals, ParseTime(cert.validAfter), ParseTime(cert.validBefore), false, cert.raw, "")
  }

  /** Both ends of the validity survive the trip through the unsigned fields into the record, before the epoch too. */
  lemma MakeRecordKeepsTimes(cert: Cert, after: int, before: int)
    requires IsInt64(after) && IsInt64(before)
    requires cert.validAfter == ToUint64(after) && cert.validBefore == ToUint64(before)
    ensures MakeRecord(cert).createdAt == FromUnix(after)
    ensures MakeRecord(cert).expires == FromUnix(before)
    ensures Unix(MakeRecord(cert).expires) == before && !MakeRecord(cert).revoked
    ensures MakeRecord(cert).principals == cert.principals && MakeRecord(cert).raw == cert.raw
  {
  }
}
