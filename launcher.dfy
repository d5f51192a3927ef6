/** The launcher's top level: load the bundle shipped next to it, unless a strictly fresher
    `app.asar` in the user-data directory declares a newer version, in which case that
    archive is loaded only after its signature manifest checks out, and the process exits
    otherwise. */
module Launcher {
  import opened Platform
  import opened Versions
  import opened Signatures

  const ArchiveName := "app.asar"
  const DescriptorName := "package.json"

  /** What the launcher knows about itself: `__dirname`, `__filename`, and Electron's
      `app.getPath('userData')`. */
  datatype Launch = Launch(dirname: Path, filename: Path, userDataDir: Path)

  /** Either the directory whose `app.js` is loaded next, or a fatal exit with status 1
      after printing `diagnostic`. */
  datatype Outcome = Start(entryPointDir: Path) | Exit(fatal: Fatal, diagnostic: string)

  /** A file's freshness: the later of its modification and status-change times. */
  function Freshness(s: Stat): (t: int)
    ensures t >= s.mtime && t >= s.ctime
    ensures t == s.mtime || t == s.ctime
  {
    if s.mtime >= s.ctime then s.mtime else s.ctime
  }

  function CandidateArchive(l: Launch): Path
  {
    PathJoin(l.userDataDir, ArchiveName)
  }

  /** The file whose times stand for the shipped bundle: the archive itself when the
      launcher runs from inside one, the launcher script otherwise. */
  function BaseFile(l: Launch): (p: Path)
    ensures p == l.dirname || p == l.filename
    ensures EndsWith(l.dirname, ArchiveName) ==> p == l.dirname
    ensures !EndsWith(l.dirname, ArchiveName) ==> p == l.filename
  {
    if EndsWith(l.dirname, ArchiveName) then l.dirname else l.filename
  }

  function LocalDescriptor(l: Launch): Path
  {
    PathJoin(l.dirname, DescriptorName)
  }

  function CandidateDescriptor(l: Launch): Path
  {
    PathJoin(CandidateArchive(l), DescriptorName)
  }

  /** Both files can be stat'ed and the candidate is strictly fresher. */
  predicate CandidateFresher(fs: FileSystem, l: Launch)
  {
    CandidateArchive(l) in fs.stats && BaseFile(l) in fs.stats &&
    Freshness(fs.stats[CandidateArchive(l)]) > Freshness(fs.stats[BaseFile(l)])
  }

  /** Probing picks the candidate: it is fresher, both versions can be read, and the
      candidate's is newer over the local version's components. */
  predicate CandidateChosen(fs: FileSystem, l: Launch)
  {
    CandidateFresher(fs, l) &&
    LocalDescriptor(l) in fs.versions && CandidateDescriptor(l) in fs.versions &&
    Compare(ParseVersion(fs.versions[LocalDescriptor(l)]),
            ParseVersion(fs.versions[CandidateDescriptor(l)])) == Newer
  }

  /** The launcher's top level. `validated` tells whether validateSignature ran. Every
      probing failure keeps the shipped bundle; once the candidate is chosen, a failed
      validation is fatal and never falls back. */
  method SelectEntryPoint(host: Host, key: PublicKey, launch: Launch) returns (outcome: Outcome, validated: bool)
    ensures validated <==> CandidateChosen(host.fs, launch)
    ensures !CandidateChosen(host.fs, launch) ==> outcome == Start(launch.dirname)
    ensures CandidateChosen(host.fs, launch) && Trusted(host, key, launch.userDataDir) ==>
      outcome == Start(CandidateArchive(launch))
    ensures CandidateChosen(host.fs, launch) && !Trusted(host, key, launch.userDataDir) ==>
      outcome.Exit? && Justified(host, key, launch.userDataDir, outcome.fatal)
    ensures outcome.Exit? ==> outcome.diagnostic == Message(outcome.fatal)
  {
    var entryPointDir := launch.dirname;
    validated := false;
    var userDataAppArchivePath := PathJoin(launch.userDataDir, ArchiveName);
    var appFilePath := if EndsWith(entryPointDir, ArchiveName) then entryPointDir else launch.filename;
    // A failing statSync on either file, or an unreadable version, leaves the base selected.
    if userDataAppArchivePath in host.fs.stats && appFilePath in host.fs.stats {
      var userPackageStatTime := Freshness(host.fs.stats[userDataAppArchivePath]);
      var packageStatTime := Freshness(host.fs.stats[appFilePath]);
      var localDescriptor := PathJoin(launch.dirname, DescriptorName);
      var userDescriptor := PathJoin(userDataAppArchivePath, DescriptorName);
      if userPackageStatTime > packageStatTime &&
         localDescriptor in host.fs.versions && userDescriptor in host.fs.versions
      {
        var versionLocal := ParseVersion(host.fs.versions[localDescriptor]);
        var versionUserData := ParseVersion(host.fs.versions[userDescriptor]);
        var i := 0;
        while i < |versionLocal|
          invariant 0 <= i <= |versionLocal|
          invariant CompareFrom(versionLocal, versionUserData, i) == CompareFrom(versionLocal, versionUserData, 0)
          invariant entryPointDir == launch.dirname && !validated
        {
          if Greater(At(versionUserData, i), versionLocal[i]) {
            assert CandidateChosen(host.fs, launch);
            entryPointDir := userDataAppArchivePath;
            var verdict, checks := ValidateSignature(host, key, launch.userDataDir);
            validated := true;
            if verdict.Rejected? {
              return Exit(verdict.fatal, Message(verdict.fatal)), validated;
            }
            break;
          }
          if Greater(versionLocal[i], At(versionUserData, i)) {
            assert !CandidateChosen(host.fs, launch);
            break;
          }
          i := i + 1;
        }
      }
    }
    outcome := Start(entryPointDir);
  }

  /** The archive that gets loaded is the very file the manifest's `app.asar` entry was
      verified against. */
  lemma LoadedArchiveIsVerified(host: Host, key: PublicKey, l: Launch)
    requires Trusted(host, key, l.userDataDir)
    ensures CandidateArchive(l) in host.fs.contents
    ensures host.verify(key, host.fs.contents[CandidateArchive(l)],
                        LoadManifest(host, l.userDataDir).signatures[ArchiveKey])
  {
    var m := LoadManifest(host, l.userDataDir).signatures;
    assert ArchiveKey in Entries(m);
    assert EntryVerified(host, key, l.userDataDir, Entries(m), ArchiveKey);
  }

  /** Equal version strings never select the candidate, however fresh it is. */
  lemma EqualVersionsKeepBase(fs: FileSystem, l: Launch)
    requires LocalDescriptor(l) in fs.versions && CandidateDescriptor(l) in fs.versions
    requires fs.versions[LocalDescriptor(l)] == fs.versions[CandidateDescriptor(l)]
    ensures !CandidateChosen(fs, l)
  {
    CompareSelf(ParseVersion(fs.versions[LocalDescriptor(l)]));
  }

  /** A fresher candidate "2.0.0" over a local "1.9.9" is chosen. */
  lemma UpgradeIsChosen(fs: FileSystem, l: Launch)
    requires CandidateFresher(fs, l)
    requires LocalDescriptor(l) in fs.versions && fs.versions[LocalDescriptor(l)] == "1.9.9"
    requires CandidateDescriptor(l) in fs.versions && fs.versions[CandidateDescriptor(l)] == "2.0.0"
    ensures CandidateChosen(fs, l)
  {
    assert "1.9.9" == "1" + "." + "9" + "." + "9";
    assert "2.0.0" == "2" + "." + "0" + "." + "0";
    ParseThree("1", "9", "9");
    ParseThree("2", "0", "0");
    assert ToNumber("1") == Num(1) && ToNumber("2") == Num(2);
    assert Greater(Num(2), Num(1));
  }

  /** The candidate "9007199254740993" is not chosen over a local "9007199254740992":
      unary `+` rounds both to the same double 2^53. */
  lemma PrecisionLossKeepsBase(fs: FileSystem, l: Launch)
    requires LocalDescriptor(l) in fs.versions && fs.versions[LocalDescriptor(l)] == Decimal(Two53)
    requires CandidateDescriptor(l) in fs.versions && fs.versions[CandidateDescriptor(l)] == Decimal(Two53 + 1)
    ensures !CandidateChosen(fs, l)
  {
    DigitsAreDotFree(Decimal(Two53));
    DigitsAreDotFree(Decimal(Two53 + 1));
    ParseSingle(Decimal(Two53));
    ParseSingle(Decimal(Two53 + 1));
    DecimalRoundTrip(Two53);
    DecimalRoundTrip(Two53 + 1);
    PrecisionLossTies();
    assert CompareFrom([Num(Two53)], [Num(Two53 + 1)], 1) == Same;
  }

  /** A candidate version that is a dotted prefix of the local one ("1.0" against
      "1.0.0") is not chosen: its missing components are NaN. */
  lemma MissingComponentKeepsBase(fs: FileSystem, l: Launch, more: string)
    requires CandidateDescriptor(l) in fs.versions
    requires LocalDescriptor(l) in fs.versions
    requires fs.versions[LocalDescriptor(l)] == fs.versions[CandidateDescriptor(l)] + "." + more
    ensures !CandidateChosen(fs, l)
  {
    var candidate := fs.versions[CandidateDescriptor(l)];
    ParseAppend(candidate, more);
    ShorterCandidateNotNewer(ParseVersion(candidate), ParseVersion(more));
  }

  /** A candidate version that extends the local one with more dotted components
      ("1.2.5" against "1.2") is not chosen: those components are never examined. */
  lemma ExtraComponentKeepsBase(fs: FileSystem, l: Launch, more: string)
    requires LocalDescriptor(l) in fs.versions
    requires CandidateDescriptor(l) in fs.versions
    requires fs.versions[CandidateDescriptor(l)] == fs.versions[LocalDescriptor(l)] + "." + more
    ensures !CandidateChosen(fs, l)
  {
    var local := fs.versions[LocalDescriptor(l)];
    ParseAppend(local, more);
    LongerCandidateNotNewer(ParseVersion(local), ParseVersion(more));
  }
}
