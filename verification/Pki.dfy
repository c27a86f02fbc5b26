/**
 The decisions in internal/pki/pki.go: which CSRs are acceptable, what goes into a certificate, and
 how long it lives. Parsing, signatures and key kinds are library code and parameters.
 */
module Pki {
  import opened Prelude
  import opened Addresses
  import opened Sessions

  type PublicKey = nat

  datatype Csr = Csr(key: PublicKey, body: seq<byte>)

  /** x509.ParseCertificateRequest, CheckSignature and checkPublicKey. */
  datatype CsrLibrary = CsrLibrary(parse: seq<byte> -> Option<Csr>, selfSigned: Csr -> bool, strong: PublicKey -> bool)

  function ParseCsr(lib: CsrLibrary, der: seq<byte>): Option<Csr> {
    var csr := lib.parse(der);
    if csr.None? || !lib.selfSigned(csr.value) || !lib.strong(csr.value.key) then None else csr
  }

  predicate CheckCsr(lib: CsrLibrary, der: seq<byte>) { ParseCsr(lib, der).Some? }

  /** notAfter is None for a CA without a certificate; times and lifetimes in seconds. */
  datatype Ca = Ca(notAfter: Option<int>, maxTtl: int)

  /** The earlier of the requested end and the CA's own. */
  function NotAfter(ca: Ca, now: int, ttl: int): (end: int)
    ensures end <= now + ttl && (ca.notAfter.Some? ==> end <= ca.notAfter.value)
    ensures end == now + ttl || ca.notAfter == Some(end)
  {
    if ca.notAfter.Some? && now + ttl > ca.notAfter.value then ca.notAfter.value else now + ttl
  }

  datatype Request = Request(subject: Subject, dnsNames: seq<string>, ips: seq<Ip>, clientAuth: bool)

  datatype Certificate = Certificate(subject: Subject, dnsNames: seq<string>, ips: seq<Ip>, clientAuth: bool,
                                     key: PublicKey, notBefore: int, notAfter: int, issuer: Ca)

  datatype SignResult = BadCsr | SignFailed | Signed(cert: Certificate)

  const BACKDATE := 5 * 60

  /** The certificate starts five minutes before it was signed, and ends with the CA's lifetime for its
      certificates or with the CA, whichever is first. */
  predicate Lives(cert: Certificate, now: int) {
    var ca := cert.issuer;
    && cert.notBefore == now - 300
    && cert.notAfter <= now + ca.maxTtl && (ca.notAfter.Some? ==> cert.notAfter <= ca.notAfter.value)
    && (cert.notAfter == now + ca.maxTtl || ca.notAfter == Some(cert.notAfter))
  }

  /** works says whether drawing the serial and signing succeed. */
  function Sign(ca: Ca, lib: CsrLibrary, der: seq<byte>, req: Request, now: int, works: bool): (r: SignResult)
    ensures r == BadCsr <==> !CheckCsr(lib, der)
    ensures r == SignFailed <==> CheckCsr(lib, der) && !works
    ensures r.Signed? ==>
      && Lives(r.cert, now) && r.cert.issuer == ca && Some(r.cert.key) == KeyOf(lib, der)
      && r.cert.subject == req.subject && r.cert.dnsNames == req.dnsNames
      && r.cert.ips == req.ips && r.cert.clientAuth == req.clientAuth
  {
    var csr := ParseCsr(lib, der);
    if csr.None? then BadCsr
    else if !works then SignFailed
    else Signed(Certificate(req.subject, req.dnsNames, req.ips, req.clientAuth, csr.value.key,
                            now - BACKDATE, NotAfter(ca, now, ca.maxTtl), ca))
  }

  /** The key of a CSR that parses, is signed with it, and whose key is strong. */
  function KeyOf(lib: CsrLibrary, der: seq<byte>): Option<PublicKey> {
    match lib.parse(der)
    case None => None
    case Some(csr) => if lib.selfSigned(csr) && lib.strong(csr.key) then Some(csr.key) else None
  }
}
