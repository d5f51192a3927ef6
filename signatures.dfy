/** The signature manifest check that gates the downloaded bundle: `signatures.json` in
    the user-data directory maps each resource name to its signature, plus the reserved
    key `kwResSelf` holding the signature of the rest of the manifest. */
module Signatures {
  import opened Platform

  const ManifestFile := "signatures.json"
  const SelfKey := "kwResSelf"
  const ArchiveKey := "app.asar"
  /** The name reported when the self-signature fails. */
  const SelfName := "self"

  /** An exception thrown while validating (caught by the launcher and reported). */
  datatype Thrown = Unreadable(path: Path) | Malformed(path: Path)

  /** Every way validation ends the process. */
  datatype Fatal =
    | InvalidSignatureFile
    | SignatureInvalid(target: string)
    | Threw(error: Thrown)

  datatype Verdict = Verified | Rejected(fatal: Fatal)

  /** One call of the signature primitive, in the order they are made. */
  datatype Check = SelfCheck | FileCheck(name: string)

  datatype Loaded = Loaded(signatures: map<string, string>) | LoadFailed(fatal: Fatal)

  /** The diagnostic printed before the process exits with status 1. */
  function Message(f: Fatal): (m: string)
    ensures f.SignatureInvalid? ==> m == "Resource corrupted: " + f.target
    ensures f.Threw? ==> "Error validating signatures: " <= m
  {
    match f
    case InvalidSignatureFile => "Invalid signature file"
    case SignatureInvalid(target) => "Resource corrupted: " + target
    case Threw(e) => "Error validating signatures: " + Describe(e)
  }

  /** A stand-in for the text of the exception. */
  function Describe(e: Thrown): string
  {
    match e
    case Unreadable(p) => "Error: " + "ENOENT: no such file or directory, open '" + p + "'"
    case Malformed(p) => "SyntaxError: " + "malformed JSON in " + p
  }

  /** Different failures print different diagnostics: the message alone tells which
      check failed and names the failing resource or path. */
  lemma MessageIdentifiesFailure(f: Fatal, g: Fatal)
    requires Message(f) == Message(g)
    ensures f == g
  {
    var corrupted := "Resource corrupted: ";
    var caught := "Error validating signatures: ";
    assert Message(InvalidSignatureFile)[0] == 'I';
    assert corrupted[0] == 'R' && caught[0] == 'E';
    if f.SignatureInvalid? && g.SignatureInvalid? {
      PrefixCancel(corrupted, f.target, g.target);
    } else if f.Threw? && g.Threw? {
      PrefixCancel(caught, Describe(f.error), Describe(g.error));
      DescribeIdentifiesError(f.error, g.error);
    }
  }

  lemma DescribeIdentifiesError(a: Thrown, b: Thrown)
    requires Describe(a) == Describe(b)
    ensures a == b
  {
    var open := "Error: " + "ENOENT: no such file or directory, open '";
    var parse := "SyntaxError: " + "malformed JSON in ";
    var x, y := Describe(a), Describe(b);
    assert open[0] == 'E' && parse[0] == 'S';
    assert x[0] == (if a.Unreadable? then 'E' else 'S');
    if a.Unreadable? && b.Unreadable? {
      assert x == open + (a.path + "'") && y == open + (b.path + "'");
      PrefixCancel(open, a.path + "'", b.path + "'");
      assert a.path == (a.path + "'")[..|a.path|];
    } else if a.Malformed? && b.Malformed? {
      assert x == parse + a.path && y == parse + b.path;
      PrefixCancel(parse, a.path, b.path);
    }
  }

  lemma PrefixCancel(p: string, s: string, t: string)
    requires p + s == p + t
    ensures s == t
  {
    assert s == (p + s)[|p|..];
    assert t == (p + t)[|p|..];
  }

  /** Reading and parsing `signatures.json` in `appPath`: the manifest is whatever the
      parser makes of the file's bytes; a missing file or bytes the parser refuses throw,
      naming the manifest's path. */
  function LoadManifest(host: Host, appPath: Path): (r: Loaded)
    ensures var p := PathJoin(appPath, ManifestFile);
      r.Loaded? <==> p in host.fs.contents && host.parseJson(host.fs.contents[p]).Some?
    ensures var p := PathJoin(appPath, ManifestFile);
      r.Loaded? ==> host.parseJson(host.fs.contents[p]) == Some(r.signatures)
    ensures r.LoadFailed? ==> r.fatal.Threw? && r.fatal.error.path == PathJoin(appPath, ManifestFile)
  {
    var p := PathJoin(appPath, ManifestFile);
    if p !in host.fs.contents then LoadFailed(Threw(Unreadable(p)))
    else match host.parseJson(host.fs.contents[p])
      case None => LoadFailed(Threw(Malformed(p)))
      case Some(m) => Loaded(m)
  }

  /** JavaScript truthiness of `m[k]` for a string value: present and non-empty. */
  predicate Present(m: map<string, string>, k: string)
  {
    k in m && m[k] != ""
  }

  predicate WellFormed(m: map<string, string>)
  {
    Present(m, SelfKey) && Present(m, ArchiveKey)
  }

  /** The manifest with the self-signature removed: what the self-signature covers,
      and the list of resources to check. */
  function Entries(m: map<string, string>): (e: map<string, string>)
    ensures SelfKey !in e && e.Keys == m.Keys - {SelfKey}
    ensures forall k :: k in e ==> e[k] == m[k]
  {
    m - {SelfKey}
  }

  predicate SelfVerified(host: Host, key: PublicKey, m: map<string, string>)
    requires SelfKey in m
  {
    host.verify(key, host.stringify(Entries(m)), m[SelfKey])
  }

  /** The file behind one manifest entry exists and its full contents carry the signature. */
  predicate EntryVerified(host: Host, key: PublicKey, appPath: Path, entries: map<string, string>, name: string)
    requires name in entries
  {
    var p := PathJoin(appPath, name);
    p in host.fs.contents && host.verify(key, host.fs.contents[p], entries[name])
  }

  /** The bundle in `appPath` may be loaded: its manifest is readable, has both required
      keys, its self-signature holds, and every remaining entry is verified. */
  predicate Trusted(host: Host, key: PublicKey, appPath: Path)
  {
    var loaded := LoadManifest(host, appPath);
    loaded.Loaded? && WellFormed(loaded.signatures) && SelfVerified(host, key, loaded.signatures) &&
    forall name :: name in Entries(loaded.signatures) ==>
      EntryVerified(host, key, appPath, Entries(loaded.signatures), name)
  }

  /** Entry `name` fails with `f`: its file is missing (the read throws) or its signature
      does not hold. */
  predicate EntryFailure(host: Host, key: PublicKey, appPath: Path, entries: map<string, string>, name: string, f: Fatal)
    requires name in entries
  {
    var p := PathJoin(appPath, name);
    if p !in host.fs.contents then f == Threw(Unreadable(p))
    else !host.verify(key, host.fs.contents[p], entries[name]) && f == SignatureInvalid(name)
  }

  /** `f` is a failure validation may report: the manifest's own failure, in the order
      load, required keys, self-signature; once those pass, the failure of some entry. */
  predicate Justified(host: Host, key: PublicKey, appPath: Path, f: Fatal)
  {
    match LoadManifest(host, appPath)
    case LoadFailed(e) => f == e
    case Loaded(m) =>
      if !WellFormed(m) then f == InvalidSignatureFile
      else if !SelfVerified(host, key, m) then f == SignatureInvalid(SelfName)
      else exists name :: name in Entries(m) && EntryFailure(host, key, appPath, Entries(m), name, f)
  }

  /** validateDataSignature: one signature check, fatal and naming its target on failure. */
  function ValidateDataSignature(host: Host, key: PublicKey, data: Bytes, signature: string, name: string): (v: Verdict)
    ensures v.Verified? <==> host.verify(key, data, signature)
    ensures v.Rejected? ==> v.fatal == SignatureInvalid(name)
  {
    if host.verify(key, data, signature) then Verified else Rejected(SignatureInvalid(name))
  }

  /** validateSignature: load the manifest, require both keys, delete the self-signature,
      check it over the serialised remainder, then check every remaining entry against its
      file, stopping at the first failure. `checks` lists the signature checks made. */
  method ValidateSignature(host: Host, key: PublicKey, appPath: Path) returns (verdict: Verdict, checks: seq<Check>)
    ensures verdict.Verified? <==> Trusted(host, key, appPath)
    ensures verdict.Rejected? ==> Justified(host, key, appPath, verdict.fatal)
    ensures checks != [] <==> LoadManifest(host, appPath).Loaded? && WellFormed(LoadManifest(host, appPath).signatures)
    ensures checks != [] ==> checks[0] == SelfCheck && forall i :: 1 <= i < |checks| ==> checks[i].FileCheck?
    ensures checks != [] && !SelfVerified(host, key, LoadManifest(host, appPath).signatures) ==> checks == [SelfCheck]
    ensures verdict.Verified? ==>
      forall name :: FileCheck(name) in checks <==> name in Entries(LoadManifest(host, appPath).signatures)
    ensures forall name :: FileCheck(name) in checks ==> PathJoin(appPath, name) in host.fs.contents
  {
    checks := [];
    var loaded := LoadManifest(host, appPath);
    if loaded.LoadFailed? {
      return Rejected(loaded.fatal), checks;
    }
    var signatures := loaded.signatures;
    if !Present(signatures, SelfKey) || !Present(signatures, ArchiveKey) {
      return Rejected(InvalidSignatureFile), checks;
    }
    var selfSignature := signatures[SelfKey];
    signatures := signatures - {SelfKey};
    checks := [SelfCheck];
    verdict := ValidateDataSignature(host, key, host.stringify(signatures), selfSignature, SelfName);
    if verdict.Rejected? {
      return;
    }
    var remaining := signatures.Keys;
    while remaining != {}
      invariant verdict == Verified
      invariant signatures == Entries(loaded.signatures)
      invariant remaining <= signatures.Keys
      invariant forall name :: name in signatures && name !in remaining ==>
        EntryVerified(host, key, appPath, signatures, name)
      invariant |checks| >= 1 && checks[0] == SelfCheck
      invariant forall i :: 1 <= i < |checks| ==> checks[i].FileCheck?
      invariant forall name :: FileCheck(name) in checks <==> name in signatures && name !in remaining
      invariant forall name :: FileCheck(name) in checks ==> PathJoin(appPath, name) in host.fs.contents
      decreases remaining
    {
      var name :| name in remaining;
      var resourcePath := PathJoin(appPath, name);
      if resourcePath !in host.fs.contents {
        assert !EntryVerified(host, key, appPath, signatures, name);
        return Rejected(Threw(Unreadable(resourcePath))), checks;
      }
      checks := checks + [FileCheck(name)];
      verdict := ValidateDataSignature(host, key, host.fs.contents[resourcePath], signatures[name], name);
      if verdict.Rejected? {
        assert !EntryVerified(host, key, appPath, signatures, name);
        return;
      }
      remaining := remaining - {name};
    }
  }

  /** When the manifest and its self-signature are sound and exactly one entry's file
      fails its signature, validation can only report that entry by name. */
  lemma SingleCorruptEntryIsNamed(host: Host, key: PublicKey, appPath: Path, bad: string, f: Fatal)
    requires LoadManifest(host, appPath).Loaded?
    requires WellFormed(LoadManifest(host, appPath).signatures)
    requires SelfVerified(host, key, LoadManifest(host, appPath).signatures)
    requires bad in Entries(LoadManifest(host, appPath).signatures)
    requires PathJoin(appPath, bad) in host.fs.contents
    requires forall name :: name in Entries(LoadManifest(host, appPath).signatures) && name != bad ==>
      EntryVerified(host, key, appPath, Entries(LoadManifest(host, appPath).signatures), name)
    requires Justified(host, key, appPath, f)
    ensures f == SignatureInvalid(bad)
  {
  }

  /** A manifest entry named "self" whose file fails its signature is reported with the
      same failure, and so the same diagnostic, as a failing self-signature: the launcher
      passes the entry's own name to the signature check, and "self" for the manifest. */
  lemma EntryNamedSelfReadsAsSelfFailure(host: Host, key: PublicKey, appPath: Path)
    requires LoadManifest(host, appPath).Loaded?
    requires WellFormed(LoadManifest(host, appPath).signatures)
    requires SelfVerified(host, key, LoadManifest(host, appPath).signatures)
    requires SelfName in Entries(LoadManifest(host, appPath).signatures)
    requires PathJoin(appPath, SelfName) in host.fs.contents
    requires !EntryVerified(host, key, appPath, Entries(LoadManifest(host, appPath).signatures), SelfName)
    ensures Justified(host, key, appPath, SignatureInvalid(SelfName))
    ensures Message(SignatureInvalid(SelfName)) == "Resource corrupted: self"
  {
    var entries := Entries(LoadManifest(host, appPath).signatures);
    assert EntryFailure(host, key, appPath, entries, SelfName, SignatureInvalid(SelfName));
  }
}
