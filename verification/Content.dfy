/** `scanContentData` and the sniff-then-reread of `scanFileContentsWithOptions` in
    `internal/scanner/scanner.go`, for content that is not an archive. */
module Content {
  import opened Common
  import opened TextCodec
  import JavaKeystore
  import Pkcs12
  import Pkcs12Proofs

  /** Where in a keystore a certificate was found. */
  datatype Keystore =
    | Plain
    | Java(format: JavaKeystore.Format, alias: Text, entryType: JavaKeystore.EntryType, javaIndex: nat, javaTrust: bool)
    | Pfx(name: Pkcs12.Name, pfxIndex: nat, pfxTrust: bool)

  datatype Certificate = Certificate(path: string, entries: seq<string>, index: nat, der: Bytes, keystore: Keystore)

  datatype Finding = Finding(path: string, entries: seq<string>, contentIndex: nat, algorithm: Bytes)

  /** The causes joined into an error. Only ByteLimit answers to the byte-limit test. */
  datatype Cause =
    | ByteLimit | EntryLimit | DepthLimit | CountLimit
    | EncryptedEntry | MissingFooter | BadArchive | Library(code: nat)
    | JavaProblem(java: JavaKeystore.Problem)
    | PfxProblem(pfx: Pkcs12.Problem)

  /** A scan result; its error is nil exactly when there is no cause. */
  datatype Outcome = Outcome(certificates: seq<Certificate>, findings: seq<Finding>, causes: seq<Cause>, capped: bool)

  const NOTHING := Outcome([], [], [], false)

  /** What comes from outside: the X.509 and string oracles of the keystore parsers,
      the certificates `parsePEM` finds in some bytes, and those of a complete DER
      value (none when it does not parse). */
  datatype Codecs = Codecs(
    accepts: Bytes -> bool, repair: Bytes -> Text, utf8: Bytes -> bool, pem: Bytes -> seq<Bytes>,
    bundle: Bytes -> seq<Bytes>)

  function FromJava(c: JavaKeystore.KeystoreCertificate): Keystore {
    Java(c.format, c.alias, c.entryType, c.chainIndex, c.truststore)
  }

  /** `describe` for the values of a list, numbered from zero. */
  function DescribePlain(path: string, ders: seq<Bytes>): (r: seq<Certificate>)
    ensures Numbered(r, path)
  {
    seq(|ders|, i requires 0 <= i < |ders| => Certificate(path, [], i, ders[i], Plain))
  }

  function DescribeJava(path: string, found: seq<JavaKeystore.KeystoreCertificate>): (r: seq<Certificate>)
    ensures Numbered(r, path)
  {
    seq(|found|, i requires 0 <= i < |found| => Certificate(path, [], i, found[i].der, FromJava(found[i])))
  }

  function DescribePfx(path: string, found: seq<Pkcs12.Certificate>): (r: seq<Certificate>)
    ensures Numbered(r, path)
  {
    seq(|found|, i requires 0 <= i < |found| =>
      Certificate(path, [], i, found[i].der, Pfx(found[i].name, found[i].chainIndex, found[i].truststore)))
  }

  function DescribeFindings(path: string, found: seq<Pkcs12.EncryptedContent>): (r: seq<Finding>)
    ensures forall f <- r :: f.path == path && f.entries == []
  {
    seq(|found|, i requires 0 <= i < |found| => Finding(path, [], found[i].contentIndex, found[i].algorithm))
  }

  /** The file-wide index of each certificate is its position. */
  predicate Numbered(certificates: seq<Certificate>, path: string) {
    forall i :: 0 <= i < |certificates| ==>
      certificates[i].path == path && certificates[i].entries == [] && certificates[i].index == i
  }

  function JavaOutcome(codecs: Codecs, path: string, data: Bytes): Outcome {
    var parsed := JavaKeystore.Parse(JavaKeystore.Codec(codecs.accepts, codecs.repair), data);
    Outcome(DescribeJava(path, parsed.certificates), [],
            seq(|parsed.problems|, i requires 0 <= i < |parsed.problems| => JavaProblem(parsed.problems[i])), false)
  }

  function PfxOutcome(codecs: Codecs, path: string, data: Bytes): Outcome {
    var parsed := Pkcs12.Parse(Pkcs12.Codec(codecs.accepts, codecs.utf8), data);
    Outcome(DescribePfx(path, parsed.certificates), DescribeFindings(path, parsed.encrypted),
            seq(|parsed.problems|, i requires 0 <= i < |parsed.problems| => PfxProblem(parsed.problems[i])), false)
  }

  predicate IsKeystore(data: Bytes) {
    JavaKeystore.DetectJavaKeystore(data).Some? || Pkcs12.Detect(data)
  }

  /** `scanContentData`: the outcome, and whether the whole content must be read first. */
  function ScanContentData(codecs: Codecs, path: string, data: Bytes, complete: bool): (r: (Outcome, bool))
    ensures Numbered(r.0.certificates, path)
    ensures if r.1 then !complete else r.0.capped == !complete
    ensures ByteLimit !in r.0.causes && EntryLimit !in r.0.causes
  {
    if JavaKeystore.DetectJavaKeystore(data).Some? then
      if complete then (JavaOutcome(codecs, path, data), false) else (NOTHING, true)
    else if Pkcs12.Detect(data) then
      if complete then (PfxOutcome(codecs, path, data), false) else (NOTHING, true)
    else
      var pem := codecs.pem(data);
      if pem != [] && !complete then (Outcome(DescribePlain(path, pem), [], [], false), true)
      else
        var found := if pem == [] && complete then codecs.bundle(data) else pem;
        (Outcome(DescribePlain(path, found), [], [], !complete), false)
  }

  // ----------------------------------------------------------- what some content gives

  /** The first four bytes of a Java keystore. */
  predicate JavaMagic(data: Bytes) {
    [0xFE, 0xED, 0xFE, 0xED] <= data || [0xCE, 0xCE, 0xCE, 0xCE] <= data
  }

  /** One result for each DER value, numbered, in no keystore. */
  predicate Plainly(o: Outcome, ders: seq<Bytes>) {
    && |o.certificates| == |ders| && o.findings == [] && o.causes == []
    && forall i :: 0 <= i < |ders| ==> o.certificates[i].der == ders[i] && o.certificates[i].keystore.Plain?
  }

  /** The certificates of a Java keystore with all the parser says of them; the error is
      nil exactly when the parser's is. */
  predicate LikeJava(o: Outcome, parsed: JavaKeystore.Parsed) {
    && |o.certificates| == |parsed.certificates| && o.findings == []
    && (o.causes == [] <==> parsed.problems == [])
    && forall i :: 0 <= i < |parsed.certificates| ==>
         var c := parsed.certificates[i];
         && o.certificates[i].der == c.der
         && o.certificates[i].keystore == Java(c.format, c.alias, c.entryType, c.chainIndex, c.truststore)
  }

  /** The same for a PKCS#12 file, with its encrypted contents. */
  predicate LikePfx(o: Outcome, parsed: Pkcs12.Parsed, path: string) {
    && |o.certificates| == |parsed.certificates| && |o.findings| == |parsed.encrypted|
    && (o.causes == [] <==> parsed.problems == [])
    && (forall i :: 0 <= i < |parsed.certificates| ==>
          var c := parsed.certificates[i];
          o.certificates[i].der == c.der && o.certificates[i].keystore == Pfx(c.name, c.chainIndex, c.truststore))
    && forall i :: 0 <= i < |parsed.encrypted| ==>
         o.findings[i] == Finding(path, [], parsed.encrypted[i].contentIndex, parsed.encrypted[i].algorithm)
  }

  /** Complete content gives what the parser its magic bytes call for finds: the Java
      keystore parser, the PKCS#12 parser, or else the PEM blocks, and without any of
      those the DER values. */
  lemma CompleteContentGives(codecs: Codecs, path: string, data: Bytes)
    ensures
      var o := ScanContentData(codecs, path, data, true).0;
      if JavaMagic(data) then LikeJava(o, JavaKeystore.Parse(JavaKeystore.Codec(codecs.accepts, codecs.repair), data))
      else if Pkcs12.Detect(data) then LikePfx(o, Pkcs12.Parse(Pkcs12.Codec(codecs.accepts, codecs.utf8), data), path)
      else Plainly(o, if codecs.pem(data) != [] then codecs.pem(data) else codecs.bundle(data))
  {
    hide JavaKeystore.Parse, Pkcs12.Parse, Pkcs12.Detect;
    MagicIsDetected(data);
  }

  /** Incomplete content gives no certificate of a keystore, and of anything else those of
      its PEM blocks; the complete content is asked for where it shows a keystore or a
      PEM certificate. */
  lemma IncompleteContentGives(codecs: Codecs, path: string, data: Bytes)
    ensures
      var (o, needsFullRead) := ScanContentData(codecs, path, data, false);
      && Plainly(o, if JavaMagic(data) || Pkcs12.Detect(data) then [] else codecs.pem(data))
      && needsFullRead == (JavaMagic(data) || Pkcs12.Detect(data) || codecs.pem(data) != [])
  {
    hide JavaKeystore.Parse, Pkcs12.Parse, Pkcs12.Detect;
    MagicIsDetected(data);
  }

  lemma MagicIsDetected(data: Bytes)
    ensures JavaKeystore.DetectJavaKeystore(data).Some? <==> JavaMagic(data)
    ensures JavaKeystore.DetectJavaKeystore(data) == Some(JavaKeystore.JKS) <==> [0xFE, 0xED, 0xFE, 0xED] <= data
  {
    if |data| >= 4 {
      PutGet32(data[..4]);
      assert Put32(0xFEEDFEED) == [0xFE, 0xED, 0xFE, 0xED] && Put32(0xCECECECE) == [0xCE, 0xCE, 0xCE, 0xCE];
      GetPut32(0xFEEDFEED);
      GetPut32(0xCECECECE);
    }
  }

  // ---------------------------------------------------------------- one plain file

  /** What the first read returns: everything, or the first `maxBytes` bytes. */
  function Prefix(file: Bytes, maxBytes: nat): (r: Bytes)
    ensures r <= file
  {
    if maxBytes == 0 || |file| <= maxBytes then file else file[..maxBytes]
  }

  function Complete(file: Bytes, maxBytes: nat): bool {
    maxBytes == 0 || |file| <= maxBytes
  }

  /** What a scan of the complete bytes gives. */
  function FullScan(codecs: Codecs, path: string, file: Bytes): Outcome {
    ScanContentData(codecs, path, file, true).0
  }

  /** The sniff limit hides a file exactly when the file is longer than the limit and
      its prefix shows neither a keystore nor a PEM certificate. */
  predicate Hidden(codecs: Codecs, file: Bytes, maxBytes: nat) {
    0 < maxBytes < |file| && !IsKeystore(file[..maxBytes]) && codecs.pem(file[..maxBytes]) == []
  }

  /** `scanFileContentsWithOptions` on a readable file that is not scanned as an
      archive. All or nothing: a hidden file is capped and gives nothing at all; any
      other gives exactly what its complete bytes give. */
  function ScanPlainFile(codecs: Codecs, path: string, file: Bytes, maxBytes: nat): (r: Outcome)
    ensures r == if Hidden(codecs, file, maxBytes) then NOTHING.(capped := true) else FullScan(codecs, path, file)
    ensures Numbered(r.certificates, path)
  {
    var data, complete := Prefix(file, maxBytes), Complete(file, maxBytes);
    var (result, needsFullRead) := ScanContentData(codecs, path, data, complete);
    var final := if needsFullRead then ScanContentData(codecs, path, file, true).0 else result;
    final.(capped := !complete && !needsFullRead)
  }

  /** A recognised keystore of any kind gives the same result under every sniff limit
      of at least 44 bytes, and under none. */
  lemma KeystoresNeed44Bytes(codecs: Codecs, path: string, file: Bytes, maxBytes: nat)
    requires IsKeystore(file) && maxBytes >= 44
    ensures ScanPlainFile(codecs, path, file, maxBytes) == ScanPlainFile(codecs, path, file, 0)
  {
    if maxBytes < |file| {
      KeystoreShowsEarly(file, file[..maxBytes]);
    }
  }

  lemma KeystoreShowsEarly(file: Bytes, prefix: Bytes)
    requires prefix <= file && |prefix| >= 44
    ensures IsKeystore(prefix) <==> IsKeystore(file)
  {
    Pkcs12Proofs.DetectionSettledBy44(prefix, file);
    assert prefix[..4] == file[..4];
  }
}
