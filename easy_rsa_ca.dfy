/**
  The easy-rsa backed certificate authority: the guards it applies around the easy-rsa runs that
  set up the PKI and issue server and client certificates, and the shape of what it returns.

  The PKI data directory is the object's state: whether the `vars` file exists, the CA's files
  (`pki/ca.crt`, `pki/private/ca.key`), the files issued per common name
  (`pki/issued/<cn>.crt`, `pki/private/<cn>.key`), and the easy-rsa runs made so far. What an
  easy-rsa run does is not computed here: its outcome is a parameter of the method that starts
  it, and so are the current time and the X.509 parser.
 */
module EasyRsa {
  import opened Wrappers
  import Pem
  import opened CertTime

  /** A certificate file and its private-key file, as easy-rsa writes them. */
  datatype CertFiles = CertFiles(certFile: string, keyFile: string)

  /** Outcome of an easy-rsa run that writes nothing read here: exit status 0, or another exit status and the captured output. */
  datatype Run = Completed | Failed(output: string)

  /** Outcome of an easy-rsa `build-*` run: the files it wrote, or a failing exit status and the captured output. */
  datatype Build = Built(files: CertFiles) | BuildFailed(output: string)

  /** The validity window openssl_x509_parse reports for a certificate, in seconds since the epoch. */
  datatype Validity = Validity(validFrom: int, validTo: int)

  /** certInfo's array: `certificate`, `private_key`, `valid_from` and `valid_to`. */
  datatype CertInfo = CertInfo(certificate: string, privateKey: string, validFrom: int, validTo: int)

  datatype CaError =
    | AlreadyExists(commonName: string)               // CaException: duplicate common name
    | ExpiresInPast                                   // CaException: expiry not after now
    | ExtractionFailed                                // CaException: no certificate block in the file
    | CommandFailed(argv: seq<string>, output: string) // RuntimeException: easy-rsa exited non-zero
    | FileMissing                                     // FileIO::readFile on a file that is not there

  // ---------------------------------------------------------------------------
  // easy-rsa argument vectors
  // ---------------------------------------------------------------------------

  const InitPkiArgs: seq<string> := ["init-pki"]
  const BuildCaArgs: seq<string> := ["build-ca", "nopass"]

  /** A server certificate is valid for 360 days. */
  function ServerArgs(commonName: string): seq<string> {
    ["--days=360", "build-server-full", commonName, "nopass"]
  }

  /**
    A client certificate ends at `expiresAt`, passed as `--enddate=` followed by its `ymdHis\Z`
    form. Read under RFC 5280, that value is `expiresAt` exactly when its year lies in
    1950..2049 (see CertTime.FormatEndDateLosesCentury for the other years).
   */
  function ClientArgs(commonName: string, expiresAt: DateTime): (argv: seq<string>)
    requires ValidDateTime(expiresAt)
    ensures |argv| == 4 && |argv[0]| == 23 && argv[0][..10] == "--enddate="
    ensures argv[1..] == ["build-client-full", commonName, "nopass"]
    ensures DecodeTime(argv[0][10..]) == Some(expiresAt) <==> 1950 <= expiresAt.year <= 2049
  {
    FormatEndDateExact(expiresAt);
    var arg := "--enddate=" + FormatEndDate(expiresAt);
    assert arg[10..] == FormatEndDate(expiresAt);
    [arg, "build-client-full", commonName, "nopass"]
  }

  /**
    The client run with the enddate corrected to follow RFC 5280 (CertTime.EndDate): the same
    run as the source's for the years 1950..2049, and one whose enddate reads back as
    `expiresAt` for every year.
   */
  function CorrectedClientArgs(commonName: string, expiresAt: DateTime): (argv: seq<string>)
    requires ValidDateTime(expiresAt)
    ensures |argv| == 4 && |argv[0]| >= 10 && argv[0][..10] == "--enddate="
    ensures argv[1..] == ["build-client-full", commonName, "nopass"]
    ensures DecodeTime(argv[0][10..]) == Some(expiresAt)
    ensures 1950 <= expiresAt.year <= 2049 ==> argv == ClientArgs(commonName, expiresAt)
  {
    EndDateDecodes(expiresAt);
    var arg := "--enddate=" + EndDate(expiresAt);
    assert arg[10..] == EndDate(expiresAt);
    [arg, "build-client-full", commonName, "nopass"]
  }

  // ---------------------------------------------------------------------------
  // certInfo
  // ---------------------------------------------------------------------------

  /**
    certInfo: the certificate block and the trimmed key read from the issued files, with the
    validity window parsed from that very block rather than taken from the request.
   */
  function CertInfoOf(files: CertFiles, x509: string -> Validity): (r: Result<CertInfo, CaError>)
    ensures r.Failure? <==> !Pem.HasBlock(files.certFile, Pem.Begin, Pem.End)
    ensures r.Failure? ==> r.error == ExtractionFailed
    ensures r.Success? ==> Pem.ReadCertificate(files.certFile) == Some(r.value.certificate)
    ensures r.Success? ==> Pem.ReadCertificate(r.value.certificate) == Some(r.value.certificate)
    ensures r.Success? ==> r.value.privateKey == Pem.ReadKey(files.keyFile) && Pem.IsTrimmed(r.value.privateKey)
    ensures r.Success? ==> r.value.validFrom == x509(r.value.certificate).validFrom
    ensures r.Success? ==> r.value.validTo == x509(r.value.certificate).validTo
  {
    match Pem.ReadCertificate(files.certFile)
    case None => Failure(ExtractionFailed)
    case Some(cert) =>
      Pem.ReadCertificateIdempotent(files.certFile);
      var validity := x509(cert);
      Success(CertInfo(cert, Pem.ReadKey(files.keyFile), validity.validFrom, validity.validTo))
  }

  // ---------------------------------------------------------------------------
  // The CA
  // ---------------------------------------------------------------------------

  class EasyRsaCa {
    /** `<dataDir>/vars` exists. */
    var varsExists: bool
    /** `pki/ca.crt` and `pki/private/ca.key`, once build-ca has written them. */
    var ca: Option<CertFiles>
    /** `pki/issued/<cn>.crt` and `pki/private/<cn>.key`, by common name. */
    var issued: map<string, CertFiles>
    /** The argument vector of every easy-rsa run, in order. */
    var runs: seq<seq<string>>

    /** The data directory as found on disk, before any easy-rsa run of this object. */
    constructor Load(varsExists: bool, ca: Option<CertFiles>, issued: map<string, CertFiles>)
      ensures this.varsExists == varsExists && this.ca == ca && this.issued == issued && runs == []
    {
      this.varsExists := varsExists;
      this.ca := ca;
      this.issued := issued;
      runs := [];
    }

    /** hasCert: an issued certificate file exists for the common name. */
    predicate HasCert(commonName: string)
      reads this
    {
      commonName in issued
    }

    /**
      init: only when the vars file is absent, write it, run init-pki (which starts an empty
      PKI) and then build-ca. When the vars file exists nothing happens, so an existing CA is
      never destroyed. The vars file stays written when a later step fails.
     */
    method Init(initPki: Run, buildCa: Build) returns (r: Result<(), CaError>)
      modifies this
      ensures old(varsExists) ==> r == Success(()) && unchanged(this)
      ensures !old(varsExists) ==> varsExists
      ensures !old(varsExists) && initPki.Failed? ==>
        && r == Failure(CommandFailed(InitPkiArgs, initPki.output))
        && ca == old(ca) && issued == old(issued) && runs == old(runs) + [InitPkiArgs]
      ensures !old(varsExists) && initPki.Completed? ==>
        && issued == map[] && runs == old(runs) + [InitPkiArgs, BuildCaArgs]
        && (buildCa.Built? ==> r == Success(()) && ca == Some(buildCa.files))
        && (buildCa.BuildFailed? ==> r == Failure(CommandFailed(BuildCaArgs, buildCa.output)) && ca == None)
    {
      if varsExists {
        return Success(());
      }
      varsExists := true;
      runs := runs + [InitPkiArgs];
      if initPki.Failed? {
        return Failure(CommandFailed(InitPkiArgs, initPki.output));
      }
      ca, issued := None, map[];
      runs := runs + [BuildCaArgs];
      match buildCa
      case BuildFailed(output) =>
        r := Failure(CommandFailed(BuildCaArgs, output));
      case Built(files) =>
        ca := Some(files);
        r := Success(());
    }

    /** caCert: the certificate block of `pki/ca.crt`. */
    method CaCert() returns (r: Result<string, CaError>)
      ensures ca.None? ==> r == Failure(FileMissing)
      ensures ca.Some? && !Pem.HasBlock(ca.value.certFile, Pem.Begin, Pem.End) ==> r == Failure(ExtractionFailed)
      ensures ca.Some? && Pem.HasBlock(ca.value.certFile, Pem.Begin, Pem.End) ==> r.Success?
      ensures r.Success? ==> ca.Some? && Pem.ReadCertificate(ca.value.certFile) == Some(r.value)
      ensures r.Success? ==> Pem.ReadCertificate(r.value) == Some(r.value)
    {
      if ca.None? {
        return Failure(FileMissing);
      }
      match Pem.ReadCertificate(ca.value.certFile)
      case None => r := Failure(ExtractionFailed);
      case Some(cert) =>
        Pem.ReadCertificateIdempotent(ca.value.certFile);
        r := Success(cert);
    }

    /**
      The shared tail of serverCert and clientCert: run easy-rsa with `argv`, then read back
      the files it issued for the common name.
     */
    method Issue(argv: seq<string>, commonName: string, build: Build, x509: string -> Validity)
      returns (r: Result<CertInfo, CaError>)
      requires !HasCert(commonName)
      modifies this
      ensures varsExists == old(varsExists) && ca == old(ca) && runs == old(runs) + [argv]
      ensures build.BuildFailed? ==> issued == old(issued) && r == Failure(CommandFailed(argv, build.output))
      ensures build.Built? ==> issued == old(issued)[commonName := build.files] && r == CertInfoOf(build.files, x509)
    {
      runs := runs + [argv];
      if build.BuildFailed? {
        return Failure(CommandFailed(argv, build.output));
      }
      issued := issued[commonName := build.files];
      r := CertInfoOf(issued[commonName], x509);
    }

    /**
      serverCert: refuse a common name that already has a certificate before running easy-rsa;
      otherwise issue a 360-day server certificate for it.
     */
    method ServerCert(commonName: string, build: Build, x509: string -> Validity)
      returns (r: Result<CertInfo, CaError>)
      modifies this
      ensures old(HasCert(commonName)) ==> r == Failure(AlreadyExists(commonName)) && unchanged(this)
      ensures !old(HasCert(commonName)) ==>
        && varsExists == old(varsExists) && ca == old(ca)
        && runs == old(runs) + [ServerArgs(commonName)]
        && (build.BuildFailed? ==> issued == old(issued) && r == Failure(CommandFailed(ServerArgs(commonName), build.output)))
        && (build.Built? ==> issued == old(issued)[commonName := build.files] && r == CertInfoOf(build.files, x509))
    {
      if HasCert(commonName) {
        return Failure(AlreadyExists(commonName));
      }
      r := Issue(ServerArgs(commonName), commonName, build, x509);
    }

    /**
      clientCert: refuse a common name that already has a certificate, then an expiry that is
      not strictly after `now`, both before running easy-rsa; otherwise issue a client
      certificate that ends at `expiresAt`.
     */
    method ClientCert(commonName: string, expiresAt: DateTime, now: int, build: Build, x509: string -> Validity)
      returns (r: Result<CertInfo, CaError>)
      requires ValidDateTime(expiresAt)
      modifies this
      ensures old(HasCert(commonName)) ==> r == Failure(AlreadyExists(commonName)) && unchanged(this)
      ensures !old(HasCert(commonName)) && now >= EpochSeconds(expiresAt) ==>
        r == Failure(ExpiresInPast) && unchanged(this)
      ensures !old(HasCert(commonName)) && now < EpochSeconds(expiresAt) ==>
        && varsExists == old(varsExists) && ca == old(ca)
        && runs == old(runs) + [ClientArgs(commonName, expiresAt)]
        && (build.BuildFailed? ==> issued == old(issued) && r == Failure(CommandFailed(ClientArgs(commonName, expiresAt), build.output)))
        && (build.Built? ==> issued == old(issued)[commonName := build.files] && r == CertInfoOf(build.files, x509))
    {
      if HasCert(commonName) {
        return Failure(AlreadyExists(commonName));
      }
      if now >= EpochSeconds(expiresAt) {
        return Failure(ExpiresInPast);
      }
      r := Issue(ClientArgs(commonName, expiresAt), commonName, build, x509);
    }
  }

  // ---------------------------------------------------------------------------
  // Scenarios: what a caller can rely on from the contracts above alone
  // ---------------------------------------------------------------------------

  /**
    Calling init on a fresh data directory builds the CA; calling it again, whatever easy-rsa
    would do, succeeds without a run and leaves that CA in place.
   */
  method InitTwice(caFiles: CertFiles, second: Build) returns (first: Result<(), CaError>, again: Result<(), CaError>, kept: Option<CertFiles>)
    ensures first == Success(()) && again == Success(())
    ensures kept == Some(caFiles)
  {
    var c := new EasyRsaCa.Load(false, None, map[]);
    first := c.Init(Completed, Built(caFiles));
    again := c.Init(Completed, second);
    kept := c.ca;
  }

  /**
    A failed build-ca leaves the vars file behind, so every later init is a no-op and the CA is
    never built: caCert keeps failing.
   */
  method InitAfterFailedBuildCa(caFiles: CertFiles, output: string) returns (first: Result<(), CaError>, again: Result<(), CaError>, cert: Result<string, CaError>)
    ensures first == Failure(CommandFailed(BuildCaArgs, output))
    ensures again == Success(())
    ensures cert == Failure(FileMissing)
  {
    var c := new EasyRsaCa.Load(false, None, map[]);
    first := c.Init(Completed, BuildFailed(output));
    again := c.Init(Completed, Built(caFiles));
    cert := c.CaCert();
  }

  /**
    Issuing a server certificate twice for one common name: the second request is refused,
    nothing is run for it, and the stored files are still those of the first.
   */
  method ReissueRejected(commonName: string, files: CertFiles, other: CertFiles, x509: string -> Validity)
    returns (first: Result<CertInfo, CaError>, second: Result<CertInfo, CaError>, stored: CertFiles, runCount: nat)
    ensures first == CertInfoOf(files, x509)
    ensures second == Failure(AlreadyExists(commonName))
    ensures stored == files && runCount == 1
  {
    var c := new EasyRsaCa.Load(true, None, map[]);
    first := c.ServerCert(commonName, Built(files), x509);
    second := c.ServerCert(commonName, Built(other), x509);
    stored := c.issued[commonName];
    runCount := |c.runs|;
  }

  /**
    The expiry boundary: an expiry equal to now is refused, one second later is accepted and
    issued.
   */
  method ExpiryBoundary(commonName: string, expiresAt: DateTime, files: CertFiles, x509: string -> Validity)
    returns (atNow: Result<CertInfo, CaError>, justBefore: Result<CertInfo, CaError>)
    requires ValidDateTime(expiresAt)
    ensures atNow == Failure(ExpiresInPast)
    ensures justBefore == CertInfoOf(files, x509)
  {
    var c := new EasyRsaCa.Load(true, None, map[]);
    atNow := c.ClientCert(commonName, expiresAt, EpochSeconds(expiresAt), Built(files), x509);
    justBefore := c.ClientCert(commonName, expiresAt, EpochSeconds(expiresAt) - 1, Built(files), x509);
  }

  /**
    The enddate finding seen through clientCert: on 2026-10-15T12:00:00Z a client certificate
    that expires on 2050-01-01 passes the expiry guard and is issued, yet the enddate given to
    easy-rsa reads back as 1950-01-01, before that moment.
   */
  method ExpiryAfter2049ReadsAsPast(commonName: string, files: CertFiles, x509: string -> Validity)
    returns (r: Result<CertInfo, CaError>, enddate: string)
    ensures r == CertInfoOf(files, x509)
    ensures DecodeTime(enddate) == Some(DateTime(1950, 1, 1, 0, 0, 0))
    ensures EpochSeconds(DecodeTime(enddate).value) < 1792065600
  {
    var expiresAt := DateTime(2050, 1, 1, 0, 0, 0);
    EpochSecondsOfNow();
    EndDate2050Counterexample();
    var c := new EasyRsaCa.Load(true, None, map[]);
    r := c.ClientCert(commonName, expiresAt, 1792065600, Built(files), x509);
    enddate := c.runs[0][0][10..];
  }
}
