# EasyRsaCa: the guards and text handling around easy-rsa

The eduVPN server API issues its VPN certificates with easy-rsa. The PHP class `EasyRsaCa`
runs easy-rsa as a separate process and adds a few things around it:

- It sets up the PKI only once. `init` writes the `vars` file and runs `init-pki` and
  `build-ca` only when `vars` is absent, so a live CA is never wiped.
- It refuses to issue a second certificate for a common name. It refuses a client
  certificate whose expiry is not strictly after now. Both checks run before easy-rsa does.
- It passes the client expiry to easy-rsa as `--enddate=YYMMDDHHMMSSZ`, the UTCTime form of
  section 4.1.2.5.1 of RFC 5280. Server certificates get `--days=360`.
- It reads back what easy-rsa wrote. From the certificate file it takes the first
  `-----BEGIN CERTIFICATE-----` … `-----END CERTIFICATE-----` block, the encapsulation
  boundaries of section 2 of RFC 7468. From the key file it takes the text with surrounding
  whitespace trimmed. It returns both, together with the validity window that the X.509 parser
  reports for that block.

The model has four modules:

- `Wrappers`: `Option` and `Result`.
- `Pem` (pure): `readCertificate` and `readKey`. `readCertificate` uses the pattern
  `/(BEGIN.*END)/msU`. Its match is the leftmost BEGIN marker followed by the first END
  marker that starts after that BEGIN marker ends (`U` makes `.*` lazy). `IsFirstBlock` states
  this match declaratively, for any pair of markers. `LocateBlock` computes it with a
  first-occurrence search and is proved equal to it. `readKey` is PHP's `trim` with its default character set
  (space, `\t`, `\n`, `\r`, `\0`, `\x0B`).
- `CertTime` (pure):
  - the `ymdHis\Z` formatter;
  - a decoder for the RFC 5280 validity encodings, used as the formatter's reference;
  - seconds since the Unix epoch, which is what PHP compares `DateTime` objects by, proved to
    order calendar times exactly as the calendar does.
- `EasyRsa` (imperative): the class `EasyRsaCa`. Its fields are the data directory's state:
  - whether `vars` exists;
  - the CA's files;
  - a map from common name to the (certificate file text, key file text) pair at
    `pki/issued/<cn>.crt` and `pki/private/<cn>.key`;
  - the argument vector of every easy-rsa run.

  `init`, `serverCert` and `clientCert` are methods that update these fields. Each easy-rsa run
  is a step whose outcome (success with the files written, or a non-zero exit with its
  output) is a parameter of the method. So are "now" (epoch seconds) and the X.509 parser
  (a function from certificate text to its validity window).

Three consequences of the code worth knowing:

- A failed `init-pki` or `build-ca` leaves `vars` written. Every later `init` is then a no-op
  and the CA is never built (`InitAfterFailedBuildCa`).
- A certificate whose file holds no PEM block is still stored, although `serverCert` or
  `clientCert` reports `ExtractionFailed` for it.
- The only duplicate check is `hasCert`. The store has no second guard of its own.

`clientCert` is modelled as written: its run carries the two-digit-year enddate, which reads
back as the requested expiry only for the years 1950 to 2049 (see Findings).
`CorrectedClientArgs` is the run with the enddate RFC 5280 asks for.

## Model

| member | source | states |
|---|---|---|
| `Pem.IndexOf` | src/CA/EasyRsaCa.php:162-163 | returns the first index at or after `from` where the marker occurs, with no occurrence between `from` and it; None means there is no occurrence at or after `from` |
| `Pem.LocateBlock` | src/CA/EasyRsaCa.php:159-168 | returns None exactly when no opening marker is followed by a non-overlapping closing marker; otherwise returns the start and the closing marker's index, which satisfy `IsFirstBlock` (leftmost opening marker, first closing marker after it) |
| `Pem.MatchedSlice` | src/CA/EasyRsaCa.php:162-167 | the matched slice starts with the opening marker, ends with the closing marker, and holds no other closing marker after its opening one |
| `Pem.ExtractBlock` | src/CA/EasyRsaCa.php:159-168 | fails exactly when the text holds no block; on success returns the slice of the text from the first block's start to the end of its closing marker, and that slice is a bare block |
| `Pem.ExtractBareBlock` | src/CA/EasyRsaCa.php:162-167 | a bare block is its own first block: extracting from it returns it whole |
| `Pem.ExtractBlockIdempotent` | src/CA/EasyRsaCa.php:162-167 | extracting from an extracted block returns it unchanged |
| `Pem.ReadCertificate` | src/CA/EasyRsaCa.php:159-168 | fails exactly when the text holds no BEGIN…END block; on success returns the contiguous slice from the leftmost BEGIN to the first END after it; the result starts with BEGIN, ends with END, and has no END marker between them |
| `Pem.FirstBlockUnique` | src/CA/EasyRsaCa.php:162 | the leftmost, lazy match is unique: two positions that both satisfy `IsFirstBlock` are equal |
| `Pem.ReadCertificateIdempotent` | src/CA/EasyRsaCa.php:161-167 | an extracted block is exactly one certificate with no surrounding text: reading it again returns it unchanged |
| `Pem.TrimStart` | src/CA/EasyRsaCa.php:178-180 | the left cut of trim: every character skipped is trimmable, and the one it stops at (if any) is not |
| `Pem.TrimEnd` | src/CA/EasyRsaCa.php:178-180 | the right cut of trim: every character dropped from the end is trimmable, and the last one kept (if any) is not |
| `Pem.TrimStartUnique` | src/CA/EasyRsaCa.php:178-180 | the left cut is determined: any index with the two properties above is TrimStart's result |
| `Pem.TrimEndUnique` | src/CA/EasyRsaCa.php:178-180 | the right cut is determined: any index with the two properties above is TrimEnd's result |
| `Pem.IsTrimmable` | src/CA/EasyRsaCa.php:178-180 | the default character set of PHP's `trim`: space, tab, LF, CR, NUL and vertical tab (a predicate; ReadKeyCharacterization states what trimming with it does) |
| `Pem.ReadKey` | src/CA/EasyRsaCa.php:175-181 | the result is a slice of the key text, only trimmable characters are cut on either side, and neither end of it is trimmable |
| `Pem.ReadKeyCharacterization` | src/CA/EasyRsaCa.php:177-180 | for any text of the form trimmable + trimmed core + trimmable, returns exactly the core |
| `Pem.ReadKeyIdempotent` | src/CA/EasyRsaCa.php:177-180 | trimming an already trimmed key changes nothing |
| `CertTime.FormatEndDate` | src/CA/EasyRsaCa.php:116-124 | `ymdHis\Z` is 13 characters: 12 digits followed by `Z` |
| `CertTime.FormatEndDateDecodes` | src/CA/EasyRsaCa.php:123 | under RFC 5280 the written value reads back as the requested month, day, hour, minute and second; the year becomes the UTCTime reading of its last two digits |
| `CertTime.FormatEndDateLosesCentury` | src/CA/EasyRsaCa.php:116-124 | from the year 2050 on, the written enddate reads back at least a century before the requested expiry |
| `CertTime.UtcTimeYear` | src/CA/EasyRsaCa.php:123 | the RFC 5280 reading of a two-digit year lies in 1950..2049 and keeps the two digits |
| `CertTime.DecodeTime` | src/CA/EasyRsaCa.php:123 | only a 13-character UTCTime or a 15-character GeneralizedTime decodes to a time |
| `CertTime.GeneralizedTime` | src/CA/EasyRsaCa.php:119-124 | the four-digit-year form used by the corrected enddate: 14 digits followed by `Z` |
| `CertTime.GeneralizedTimeDecodes` | src/CA/EasyRsaCa.php:119-124 | round trip: the GeneralizedTime form reads back as exactly the time it was written from |
| `CertTime.UtcTimeYearInWindow` | src/CA/EasyRsaCa.php:123 | within 1950..2049 the two-digit year reads back as the full year, so the source's value is right there |
| `CertTime.FormatEndDateExact` | src/CA/EasyRsaCa.php:123 | the source's enddate reads back as exactly the requested expiry if and only if the year lies in 1950..2049 |
| `CertTime.EndDate` | src/CA/EasyRsaCa.php:119-124 | the corrected enddate equals the source's value for the years 1950 to 2049, and it is the 13-character UTCTime exactly for those years, as RFC 5280 requires |
| `CertTime.EndDateDecodes` | src/CA/EasyRsaCa.php:119-124 | round trip: the corrected enddate reads back as exactly the requested expiry, for every valid date |
| `CertTime.EpochSecondsAtEpoch` | src/CA/EasyRsaCa.php:111-112 | the timestamp used to compare with now is 0 at 1970-01-01T00:00:00Z |
| `CertTime.DaysBeforeYearStep` | src/CA/EasyRsaCa.php:111-112 | the reference day count: each year adds 366 days if it is a leap year and 365 otherwise |
| `CertTime.DaysBeforeMonthStep` | src/CA/EasyRsaCa.php:111-112 | the reference month table agrees with the month lengths, and its December ends the year |
| `CertTime.DaysFromCivilCounts` | src/CA/EasyRsaCa.php:111-112 | `DaysFromCivil`, the day number behind `EpochSeconds`, equals the reference count of days since 1970-01-01 for every date |
| `CertTime.EpochSecondsOrder` | src/CA/EasyRsaCa.php:111-112 | for valid times, `EpochSeconds` is smaller exactly when the time is earlier in calendar order, and equal exactly when the times are equal, so comparing timestamps compares `DateTime` values |
| `CertTime.EpochSecondsOfNow` | src/CA/EasyRsaCa.php:111-112 | the timestamp of 2026-10-15T12:00:00Z is the known Unix time 1792065600 |
| `CertTime.EpochSecondsOf2050` | src/CA/EasyRsaCa.php:111-112 | the timestamp of 2050-01-01T00:00:00Z is the known Unix time 2524608000 |
| `CertTime.EpochSecondsOf1950` | src/CA/EasyRsaCa.php:111-112 | the timestamp of 1950-01-01T00:00:00Z is the known Unix time -631152000 |
| `CertTime.EndDate2050Counterexample` | src/CA/EasyRsaCa.php:110-129 | 2050-01-01 passes the expiry guard for now = 2026-10-15, but the source writes it as `500101000000Z`, which reads back as 1950-01-01, before now; the corrected enddate reads back as 2050-01-01 |
| `EasyRsa.ServerArgs` | src/CA/EasyRsaCa.php:90 | the server run's arguments: `--days=360 build-server-full <cn> nopass` (a constant vector; `ServerCert` states that exactly this run is made) |
| `EasyRsa.ClientArgs` | src/CA/EasyRsaCa.php:119-129 | the client run gets four arguments: `--enddate=` followed by the 13-character `ymdHis\Z` value, then `build-client-full`, the common name and `nopass`; the value reads back as `expiresAt` exactly when its year lies in 1950..2049 |
| `EasyRsa.CorrectedClientArgs` | src/CA/EasyRsaCa.php:119-129 | the corrected client run: the same as the source's for the years 1950..2049, and its enddate reads back as `expiresAt` for every year |
| `EasyRsa.CertInfoOf` | src/CA/EasyRsaCa.php:139-152 | fails with ExtractionFailed exactly when the certificate file holds no block; on success the certificate is what `readCertificate` returns for the certificate file and reads back as itself, the key is `trim` of the key file, and `valid_from`/`valid_to` come from parsing that certificate |
| `EasyRsa.EasyRsaCa.Load` | src/CA/EasyRsaCa.php:29-34 | the object starts from the data directory as found, with no easy-rsa run yet |
| `EasyRsa.EasyRsaCa.Init` | src/CA/EasyRsaCa.php:39-63 | when `vars` exists: success and no change at all. Otherwise: `vars` is written, then `init-pki` runs; if it fails, that is reported and nothing else changes; if it succeeds, the PKI is emptied, `build-ca nopass` runs, and the CA is its output or the failure is reported |
| `EasyRsa.EasyRsaCa.HasCert` | src/CA/EasyRsaCa.php:188-197 | an issued certificate file exists for the common name (a predicate on the store; the guards of `ServerCert` and `ClientCert` are stated with it) |
| `EasyRsa.EasyRsaCa.CaCert` | src/CA/EasyRsaCa.php:70-75 | fails with FileMissing without a CA and with ExtractionFailed when `ca.crt` holds no block; succeeds whenever there is a CA whose `ca.crt` holds a block, and then returns the first block of `ca.crt`, which reads back as itself |
| `EasyRsa.EasyRsaCa.Issue` | src/CA/EasyRsaCa.php:119-131 | records exactly one easy-rsa run; on failure reports it and leaves the issued map unchanged; on success adds exactly one entry for the common name and returns certInfo of the files it stored |
| `EasyRsa.EasyRsaCa.ServerCert` | src/CA/EasyRsaCa.php:85-93 | for a name that already has a certificate: AlreadyExists, no run, nothing changed. Otherwise one `--days=360 build-server-full <cn> nopass` run, and the store gains exactly that one entry or is unchanged on failure |
| `EasyRsa.EasyRsaCa.ClientCert` | src/CA/EasyRsaCa.php:104-132 | checks in this order: a duplicate name gives AlreadyExists with nothing changed; then `now >= expiresAt` (equality included) gives ExpiresInPast with nothing changed; otherwise exactly the run `--enddate=<ymdHis\Z of expiresAt> build-client-full <cn> nopass`, and one entry added or none on failure |
| `EasyRsa.InitTwice` | src/CA/EasyRsaCa.php:43-62 | a second init succeeds and keeps the CA built by the first, whatever easy-rsa would have done |
| `EasyRsa.InitAfterFailedBuildCa` | src/CA/EasyRsaCa.php:43-62 | after a failed `build-ca`, a later init is a silent no-op and caCert keeps failing with FileMissing |
| `EasyRsa.ReissueRejected` | src/CA/EasyRsaCa.php:85-93 | issuing a second server certificate for one name is refused, runs nothing, and keeps the first certificate's files |
| `EasyRsa.ExpiryAfter2049ReadsAsPast` | src/CA/EasyRsaCa.php:110-131 | on 2026-10-15T12:00:00Z a client certificate expiring 2050-01-01 is accepted and issued, but the enddate given to easy-rsa reads back as 1950-01-01, before that moment |
| `EasyRsa.ExpiryBoundary` | src/CA/EasyRsaCa.php:110-114 | an expiry equal to now is refused; one second after now is accepted and issued |

## Left out

- `execEasyRsa` (src/CA/EasyRsaCa.php:202-222): the shell command line, its output redirection and the process itself are not modelled. Each run is recorded as its argument vector, and its outcome is a parameter. Key generation, signing, serial numbers and the effect of `--days=360` all happen inside easy-rsa and are not modelled.
- `init-pki` is modelled as emptying the PKI, and each `build-*` run as writing both files or neither. What easy-rsa leaves behind after a partial failure is not modelled.
- `FileIO::createDir` and `FileIO::writeFile`: directory creation, the 0700/0600 permissions and the literal contents of `vars` are not modelled. Only the existence of `vars` is.
- File paths: the store is keyed by common name. The path `%s/pki/issued/%s.crt` is not built, so names containing `/` or `..` behave as plain keys.
- `FileIO::readFile` failing on an issued file that easy-rsa just reported as written is not modelled. A missing `ca.crt` is modelled (FileMissing).
- `openssl_x509_parse` is a parameter from certificate text to its validity window. What it does with malformed input is not modelled.
- `new DateTime()` is the parameter `now`, in seconds since the epoch. `expiresAt` is a UTC calendar time with a year from 0 to 9999. Time zones other than UTC are not modelled, and neither are PHP's years outside that range. The comparison at line 112 is made in whole seconds. The microseconds of PHP's `DateTime` are not modelled.
- PHP strings are byte strings. The model uses Dafny character sequences.
- The constructor's call to `init` (src/CA/EasyRsaCa.php:33) is `EasyRsaCa.Load` followed by `Init`.
- The race between the existence checks and the easy-rsa runs: the source has no concurrency control, and the model is sequential.
- `execEasyRsa` joins the arguments with spaces and no escaping (src/CA/EasyRsaCa.php:204-209). A common name holding a space or a shell metacharacter is split or interpreted by the shell. The model records it as a single argument.
- `format('ymdHis\Z')` writes `expiresAt` in its own time zone and appends a literal `Z`. A non-UTC `expiresAt` is therefore passed as a shifted instant. The model takes `expiresAt` as a UTC calendar time.
- The exception messages (src/CA/EasyRsaCa.php:88, 107, 113, 164) are not modelled. Each exception is a `CaError` constructor.

## Findings

| source | as written | input that shows it | evidently intended | confidence | as-written member | corrected member |
|---|---|---|---|---|---|---|
| src/CA/EasyRsaCa.php:123 | `--enddate` always uses a two-digit year (`y`), the UTCTime form of RFC 5280, which reads years 50–99 as 1950–1999 | `expiresAt` = 2050-01-01T00:00:00Z with now = 2026-10-15: the guard at line 112 passes, but the value written is `500101000000Z`, which reads as 1950-01-01, already in the past | the issued certificate expires at `expiresAt`; RFC 5280 requires GeneralizedTime for years from 2050 on, and the comment at lines 116-118 chooses `y` only so that the parser accepts the certificate | medium; not executed | `CertTime.FormatEndDateLosesCentury` | `EasyRsa.CorrectedClientArgs` |
