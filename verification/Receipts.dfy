/** Publication of a receipt and its summary through prepared files, with a
    process crash possible before any file operation. */
module Receipts {
  import opened Wrappers

  const RECEIPT_MAX := 65536
  const SUMMARY_MAX := 4096

  /** The four files of the protocol, and every other file there is. */
  datatype Path = PreparedReceipt | PreparedSummary | Receipt | Summary | Elsewhere(name: nat)

  type Bytes = seq<nat>
  type Files = map<Path, Bytes>

  datatype Error = DestinationExists | InvalidBundle | NotFound | AlreadyExists | Rejected(code: nat)

  /** An operation's answer, or the crash that ended the process before it. */
  datatype Outcome<T> = Ok(value: T) | Err(error: Error) | Crashed {
    predicate IsFailure() {
      !Ok?
    }
    function PropagateFailure<U>(): Outcome<U>
      requires IsFailure()
    {
      if Err? then Outcome<U>.Err(error) else Outcome<U>.Crashed
    }
    function Extract(): T
      requires !IsFailure()
    {
      value
    }
  }

  /** The package being published: what its receipt must pass (decoding, the
      key, the shape and the subject), and its summary's bytes. */
  datatype Package = Package(check: Bytes -> Option<Error>, summary: Bytes)

  // ----- the file system, one operation at a time

  class FileSystem {
    var files: Files
    /** Operations left before the process crashes. */
    var fuel: nat

    constructor (files: Files, fuel: nat)
      ensures this.files == files && this.fuel == fuel
    {
      this.files := files;
      this.fuel := fuel;
    }

    method Restart(fuel: nat)
      modifies this
      ensures files == old(files) && this.fuel == fuel
    {
      this.fuel := fuel;
    }

    method Exists(p: Path) returns (r: Outcome<bool>)
      modifies this`fuel
      ensures r == if old(fuel) == 0 then Crashed else Ok(p in files)
      ensures Used(old(fuel), fuel, r, 1)
    {
      if fuel == 0 { return Crashed; }
      fuel := fuel - 1;
      return Ok(p in files);
    }

    method ReadBounded(p: Path, maximum: nat) returns (r: Outcome<Bytes>)
      modifies this`fuel
      ensures r == if old(fuel) == 0 then Crashed else Bounded(files, p, maximum)
      ensures Used(old(fuel), fuel, r, 1)
    {
      if fuel == 0 { return Crashed; }
      fuel := fuel - 1;
      if p !in files { return Err(NotFound); }
      if |files[p]| > maximum { return Err(InvalidBundle); }
      return Ok(files[p]);
    }

    method HardLink(from: Path, to: Path) returns (r: Outcome<()>)
      modifies this
      ensures r == if old(fuel) == 0 then Crashed
                   else if from !in old(files) then Err(NotFound)
                   else if to in old(files) then Err(AlreadyExists) else Ok(())
      ensures files == if r.Ok? then old(files)[to := old(files)[from]] else old(files)
      ensures Used(old(fuel), fuel, r, 1)
    {
      if fuel == 0 { return Crashed; }
      fuel := fuel - 1;
      if from !in files { return Err(NotFound); }
      if to in files { return Err(AlreadyExists); }
      files := files[to := files[from]];
      return Ok(());
    }

    method Remove(p: Path) returns (r: Outcome<()>)
      modifies this
      ensures r == if old(fuel) == 0 then Crashed else if p in old(files) then Ok(()) else Err(NotFound)
      ensures files == if r.Ok? then old(files) - {p} else old(files)
      ensures Used(old(fuel), fuel, r, 1)
    {
      if fuel == 0 { return Crashed; }
      fuel := fuel - 1;
      if p !in files { return Err(NotFound); }
      files := files - {p};
      return Ok(());
    }

    method SyncDirectory() returns (r: Outcome<()>)
      modifies this`fuel
      ensures r == if old(fuel) == 0 then Crashed else Ok(())
      ensures Used(old(fuel), fuel, r, 1)
    {
      if fuel == 0 { return Crashed; }
      fuel := fuel - 1;
      return Ok(());
    }
  }

  /** At most `most` operations were used, and only running out of them crashes. */
  ghost predicate Used<T>(before: nat, after: nat, r: Outcome<T>, most: nat) {
    after <= before <= after + most && (r.Crashed? ==> before < most)
  }

  // ----- the protocol on values

  function Bounded(files: Files, p: Path, maximum: nat): Outcome<Bytes> {
    if p !in files then Err(NotFound) else if |files[p]| > maximum then Err(InvalidBundle) else Ok(files[p])
  }

  /** Whether two files that exist compare equal within a bound. */
  function Equal(files: Files, left: Path, right: Path, maximum: nat): bool
    requires left in files && right in files
  {
    |files[left]| <= maximum && |files[right]| <= maximum && files[left] == files[right]
  }

  /** What comparing two files answers: a missing one is an error, a long one a difference. */
  function Comparison(files: Files, left: Path, right: Path, maximum: nat): (r: Outcome<bool>)
    ensures left in files && right in files ==> r == Ok(Equal(files, left, right, maximum))
  {
    if left !in files then Err(NotFound) else if |files[left]| > maximum then Ok(false)
    else if right !in files then Err(NotFound) else if |files[right]| > maximum then Ok(false)
    else Ok(files[left] == files[right])
  }

  /** What validating a receipt and its summary answers. */
  function Validation(files: Files, package: Package, receipt: Path, summary: Path): Outcome<()> {
    match Bounded(files, receipt, RECEIPT_MAX)
    case Err(e) => Err(e)
    case Ok(encoded) =>
      if package.check(encoded).Some? then Err(package.check(encoded).value) else
      match Bounded(files, summary, SUMMARY_MAX) {
        case Err(e) => Err(e)
        case Ok(bytes) => if bytes != package.summary then Err(InvalidBundle) else Ok(())
      }
  }

  /** A destination a prepared file may become: absent, or already the same. */
  predicate Agreeable(files: Files, prepared: Path, destination: Path, maximum: nat)
    requires prepared in files
  {
    destination !in files || Equal(files, prepared, destination, maximum)
  }

  /** What making a prepared file its destination answers. */
  function LinkResult(files: Files, prepared: Path, destination: Path, maximum: nat): Outcome<()> {
    if prepared !in files then Err(NotFound)
    else if Agreeable(files, prepared, destination, maximum) then Ok(()) else Err(DestinationExists)
  }

  function Linked(files: Files, prepared: Path, destination: Path): Files
    requires prepared in files
  {
    if destination in files then files else files[destination := files[prepared]]
  }

  method FilesEqual(fs: FileSystem, left: Path, right: Path, maximum: nat) returns (r: Outcome<bool>)
    modifies fs`fuel
    ensures r.Crashed? || r == Comparison(fs.files, left, right, maximum)
    ensures Used(old(fs.fuel), fs.fuel, r, 2)
  {
    var a := fs.ReadBounded(left, maximum);
    if a == Err(InvalidBundle) { return Ok(false); }
    var x :- a;
    var b := fs.ReadBounded(right, maximum);
    if b == Err(InvalidBundle) { return Ok(false); }
    var y :- b;
    return Ok(x == y);
  }

  method LinkOrMatch(fs: FileSystem, prepared: Path, destination: Path, maximum: nat) returns (r: Outcome<()>)
    modifies fs
    ensures r.Crashed? || r == LinkResult(old(fs.files), prepared, destination, maximum)
    ensures fs.files == (if r.Ok? then Linked(old(fs.files), prepared, destination) else old(fs.files))
    ensures Used(old(fs.fuel), fs.fuel, r, 3)
  {
    var linked := fs.HardLink(prepared, destination);
    if linked != Err(AlreadyExists) { return linked; }
    var same :- FilesEqual(fs, prepared, destination, maximum);
    return if same then Ok(()) else Err(DestinationExists);
  }

  method ValidateFiles(fs: FileSystem, package: Package, receipt: Path, summary: Path) returns (r: Outcome<()>)
    modifies fs`fuel
    ensures r.Crashed? || r == Validation(fs.files, package, receipt, summary)
    ensures Used(old(fs.fuel), fs.fuel, r, 2)
  {
    var encoded :- fs.ReadBounded(receipt, RECEIPT_MAX);
    var verdict := package.check(encoded);
    if verdict.Some? { return Err(verdict.value); }
    var bytes :- fs.ReadBounded(summary, SUMMARY_MAX);
    return if bytes != package.summary then Err(InvalidBundle) else Ok(());
  }

  /** Files the protocol may be left in on its way from prepared contents
      (r, s): nothing present disagrees with them, and nothing is lost. */
  ghost predicate Converging(files: Files, r: Bytes, s: Bytes) {
    && (PreparedReceipt in files ==> files[PreparedReceipt] == r)
    && (PreparedSummary in files ==> files[PreparedSummary] == s)
    && (Receipt in files ==> files[Receipt] == r)
    && (Summary in files ==> files[Summary] == s)
    && (|| (PreparedReceipt in files && PreparedSummary in files)
        || (Receipt in files && Summary in files))
  }

  /** Final files are only ever added, never replaced or removed, and files
      outside the protocol are left alone. */
  ghost predicate Preserved(before: Files, after: Files) {
    && (Receipt in before ==> Receipt in after && after[Receipt] == before[Receipt])
    && (Summary in before ==> Summary in after && after[Summary] == before[Summary])
    && (forall n :: Elsewhere(n) in before <==> Elsewhere(n) in after)
    && (forall n :: Elsewhere(n) in before ==> after[Elsewhere(n)] == before[Elsewhere(n)])
  }

  const PREPARED: set<Path> := {PreparedReceipt, PreparedSummary}

  /** Links both files, then drops the preparations. */
  method Finalize(fs: FileSystem, ghost r: Bytes, ghost s: Bytes) returns (done: Outcome<()>)
    modifies fs
    ensures !done.Crashed? ==> done == FinalizeResult(old(fs.files)) && fs.files == FinalizeFiles(old(fs.files))
    ensures Preserved(old(fs.files), fs.files)
    ensures Converging(old(fs.files), r, s) ==> Converging(fs.files, r, s)
    ensures Used(old(fs.fuel), fs.fuel, done, 10)
  {
    var _ :- LinkBoth(fs, r, s);
    var _ :- fs.SyncDirectory();
    var _ :- fs.Remove(PreparedReceipt);
    var _ :- fs.Remove(PreparedSummary);
    var _ :- fs.SyncDirectory();
    return Ok(());
  }

  method LinkBoth(fs: FileSystem, ghost r: Bytes, ghost s: Bytes) returns (done: Outcome<()>)
    modifies fs
    ensures !done.Crashed? ==> done == FinalizeResult(old(fs.files)) && fs.files == LinkedFiles(old(fs.files))
    ensures Preserved(old(fs.files), fs.files)
    ensures done.Ok? ==> PreparedReceipt in fs.files && PreparedSummary in fs.files
    ensures Converging(old(fs.files), r, s) ==> Converging(fs.files, r, s)
    ensures Used(old(fs.fuel), fs.fuel, done, 6)
  {
    var _ :- LinkOrMatch(fs, PreparedReceipt, Receipt, RECEIPT_MAX);
    var _ :- LinkOrMatch(fs, PreparedSummary, Summary, SUMMARY_MAX);
    return Ok(());
  }

  function FinalizeResult(files: Files): Outcome<()> {
    var first := LinkResult(files, PreparedReceipt, Receipt, RECEIPT_MAX);
    if first.Ok? then LinkResult(files, PreparedSummary, Summary, SUMMARY_MAX) else first
  }

  /** A missing or conflicting summary is noticed only after the receipt was linked. */
  function LinkedFiles(files: Files): Files {
    if !LinkResult(files, PreparedReceipt, Receipt, RECEIPT_MAX).Ok? then files
    else
      var first := Linked(files, PreparedReceipt, Receipt);
      if !LinkResult(files, PreparedSummary, Summary, SUMMARY_MAX).Ok? then first
      else Linked(first, PreparedSummary, Summary)
  }

  function FinalizeFiles(files: Files): Files {
    if FinalizeResult(files).Ok? then LinkedFiles(files) - PREPARED else LinkedFiles(files)
  }

  /** What finishing a publication answers and leaves, file by file. */
  lemma FinalizeAnswers(files: Files)
    ensures PreparedReceipt !in files ==> FinalizeResult(files) == Err(NotFound) && FinalizeFiles(files) == files
    ensures PreparedReceipt in files && Receipt in files && files[Receipt] != files[PreparedReceipt] ==>
              FinalizeResult(files) == Err(DestinationExists) && FinalizeFiles(files) == files
    ensures PreparedReceipt in files && Receipt !in files && PreparedSummary !in files ==>
              FinalizeResult(files) == Err(NotFound) && FinalizeFiles(files) == files[Receipt := files[PreparedReceipt]]
    ensures PreparedReceipt in files && PreparedSummary in files && Receipt !in files && Summary !in files ==>
              && FinalizeResult(files) == Ok(())
              && FinalizeFiles(files) == (files - PREPARED)[Receipt := files[PreparedReceipt]][Summary := files[PreparedSummary]]
  {
  }

  method RemovePreparation(fs: FileSystem, p: Path) returns (r: Outcome<()>)
    modifies fs
    ensures r.Crashed? || r == Ok(())
    ensures fs.files == if r.Ok? then old(fs.files) - {p} else old(fs.files)
    ensures Used(old(fs.fuel), fs.fuel, r, 1)
  {
    r := fs.Remove(p);
    if r == Err(NotFound) { return Ok(()); }
  }

  predicate BothFinal(files: Files) {
    Receipt in files && Summary in files
  }

  /** What a recovery that is not interrupted answers. */
  function RecoverResult(files: Files, package: Package): Outcome<bool> {
    if BothFinal(files) then
      if PreparedReceipt in files && !Equal(files, PreparedReceipt, Receipt, RECEIPT_MAX) then Err(DestinationExists)
      else if PreparedSummary in files && !Equal(files, PreparedSummary, Summary, SUMMARY_MAX) then
        Err(DestinationExists)
      else Answered(Validation(files, package, Receipt, Summary))
    else if PreparedReceipt !in files && PreparedSummary !in files && Receipt !in files && Summary !in files then
      Ok(false)
    else if PreparedReceipt !in files || PreparedSummary !in files then Err(InvalidBundle)
    else if !Validation(files, package, PreparedReceipt, PreparedSummary).Ok? then
      Answered(Validation(files, package, PreparedReceipt, PreparedSummary))
    else Answered(FinalizeResult(files))
  }

  function Answered(r: Outcome<()>): Outcome<bool> {
    match r case Ok(_) => Ok(true) case Err(e) => Err(e) case Crashed => Crashed
  }

  /** The files a recovery that is not interrupted leaves. */
  function RecoverFiles(files: Files, package: Package): Files {
    if BothFinal(files) then
      if RecoverResult(files, package).Ok? then files - PREPARED else files
    else if PreparedReceipt in files && PreparedSummary in files
            && Validation(files, package, PreparedReceipt, PreparedSummary).Ok? then FinalizeFiles(files)
    else files
  }

  method CleanUp(fs: FileSystem, package: Package, receiptPrepared: bool, summaryPrepared: bool,
                 ghost r: Bytes, ghost s: Bytes) returns (done: Outcome<bool>)
    requires BothFinal(fs.files)
    requires receiptPrepared == (PreparedReceipt in fs.files) && summaryPrepared == (PreparedSummary in fs.files)
    modifies fs
    ensures !done.Crashed? ==>
              && done == RecoverResult(old(fs.files), package)
              && fs.files == RecoverFiles(old(fs.files), package)
    ensures Preserved(old(fs.files), fs.files)
    ensures Converging(old(fs.files), r, s) ==> Converging(fs.files, r, s)
    ensures Used(old(fs.fuel), fs.fuel, done, 9)
  {
    if receiptPrepared {
      var same :- FilesEqual(fs, PreparedReceipt, Receipt, RECEIPT_MAX);
      if !same { return Err(DestinationExists); }
    }
    if summaryPrepared {
      var same :- FilesEqual(fs, PreparedSummary, Summary, SUMMARY_MAX);
      if !same { return Err(DestinationExists); }
    }
    var _ :- ValidateFiles(fs, package, Receipt, Summary);
    if receiptPrepared { var _ :- RemovePreparation(fs, PreparedReceipt); }
    if summaryPrepared { var _ :- RemovePreparation(fs, PreparedSummary); }
    var _ :- fs.SyncDirectory();
    return Ok(true);
  }

  /** Recovery: whatever it finds, an uninterrupted run answers and leaves the
      files as specified, no run replaces a final file, and an interrupted one
      stays on the way from the prepared contents. */
  method Recover(fs: FileSystem, package: Package, ghost r: Bytes, ghost s: Bytes) returns (done: Outcome<bool>)
    modifies fs
    ensures !done.Crashed? ==>
              && done == RecoverResult(old(fs.files), package)
              && fs.files == RecoverFiles(old(fs.files), package)
    ensures Preserved(old(fs.files), fs.files)
    ensures Converging(old(fs.files), r, s) ==> Converging(fs.files, r, s)
    ensures Used(old(fs.fuel), fs.fuel, done, 18)
  {
    var receiptPrepared :- fs.Exists(PreparedReceipt);
    var summaryPrepared :- fs.Exists(PreparedSummary);
    var receiptFinal :- fs.Exists(Receipt);
    if receiptFinal {
      var summaryFinal :- fs.Exists(Summary);
      if summaryFinal {
        done := CleanUp(fs, package, receiptPrepared, summaryPrepared, r, s);
        return;
      }
    }
    var receiptThere :- fs.Exists(Receipt);
    var summaryThere :- fs.Exists(Summary);
    if !receiptPrepared && !summaryPrepared && !receiptThere && !summaryThere { return Ok(false); }
    if !receiptPrepared || !summaryPrepared { return Err(InvalidBundle); }
    var _ :- ValidateFiles(fs, package, PreparedReceipt, PreparedSummary);
    var _ :- Finalize(fs, r, s);
    return Ok(true);
  }

  // ----- whole runs

  const RECOVERY_OPERATIONS := 18

  /** Contents that validation accepts. */
  ghost predicate Publishable(package: Package, r: Bytes, s: Bytes) {
    |r| <= RECEIPT_MAX && package.check(r).None? && |s| <= SUMMARY_MAX && s == package.summary
  }

  /** Only the two final files, with the prepared contents, and whatever else was there. */
  ghost predicate Published(before: Files, after: Files, r: Bytes, s: Bytes) {
    && Receipt in after && after[Receipt] == r && Summary in after && after[Summary] == s
    && PreparedReceipt !in after && PreparedSummary !in after && Preserved(before, after)
  }

  /** From anywhere on the way, one uninterrupted recovery publishes. */
  lemma ConvergingRecovers(files: Files, package: Package, r: Bytes, s: Bytes)
    requires Converging(files, r, s) && Publishable(package, r, s)
    ensures RecoverResult(files, package) == Ok(true)
    ensures Published(files, RecoverFiles(files, package), r, s)
  {
  }

  /** Any number of crashes, in the publishing run and in every recovery after
      it: the next recovery that is let finish publishes the prepared contents,
      and no final file that was there was replaced. */
  method PublishThroughCrashes(fs: FileSystem, package: Package, ghost r: Bytes, ghost s: Bytes,
                               first: nat, crashes: seq<nat>, last: nat) returns (done: Outcome<bool>)
    requires PreparedReceipt in fs.files && PreparedSummary in fs.files
    requires Converging(fs.files, r, s) && Publishable(package, r, s) && last >= RECOVERY_OPERATIONS
    modifies fs
    ensures done == Ok(true) && Published(old(fs.files), fs.files, r, s)
  {
    hide Converging, Preserved, RecoverFiles, RecoverResult, FinalizeFiles, FinalizeResult;
    ghost var before := fs.files;
    fs.Restart(first);
    var _ := Finalize(fs, r, s);
    for i := 0 to |crashes|
      invariant Converging(fs.files, r, s) && Preserved(before, fs.files)
    {
      fs.Restart(crashes[i]);
      ghost var was := fs.files;
      var _ := Recover(fs, package, r, s);
      PreservedOn(before, was, fs.files);
    }
    fs.Restart(last);
    ghost var was := fs.files;
    ConvergingRecovers(was, package, r, s);
    done := Recover(fs, package, r, s);
    PreservedOn(before, was, fs.files);
  }

  lemma PreservedOn(a: Files, b: Files, c: Files)
    requires Preserved(a, b) && Preserved(b, c)
    ensures Preserved(a, c)
  {
  }

  ghost predicate SameIfBoth(files: Files, left: Path, right: Path) {
    left in files && right in files ==> files[left] == files[right]
  }

  /** The contents a recovery has to check: the final files if both are there,
      else the prepared ones. */
  ghost predicate Candidates(files: Files, r: Bytes, s: Bytes) {
    if Receipt in files && Summary in files then files[Receipt] == r && files[Summary] == s
    else PreparedReceipt in files && PreparedSummary in files && files[PreparedReceipt] == r && files[PreparedSummary] == s
  }

  /** Recovery answers that it published exactly when the contents to check pass
      every check and no other file of the pair differs; what is then published
      are those contents, and only they. */
  lemma PublishedIsChecked(files: Files, package: Package, r: Bytes, s: Bytes)
    requires Candidates(files, r, s)
    ensures RecoverResult(files, package) == Ok(true)
            <==> && Publishable(package, r, s)
                 && SameIfBoth(files, PreparedReceipt, Receipt) && SameIfBoth(files, PreparedSummary, Summary)
    ensures RecoverResult(files, package) == Ok(true) ==>
              RecoverFiles(files, package) == (files - PREPARED)[Receipt := r][Summary := s]
  {
  }

  /** Without contents to check, it answers false on no files at all and refuses the rest. */
  lemma NothingToCheck(files: Files, package: Package)
    requires !exists r, s :: Candidates(files, r, s)
    ensures RecoverResult(files, package) ==
            if forall p :: p in files ==> p.Elsewhere? then Ok(false) else Err(InvalidBundle)
    ensures RecoverFiles(files, package) == files
  {
    if BothFinal(files) { assert Candidates(files, files[Receipt], files[Summary]); }
    if PreparedReceipt in files && PreparedSummary in files && !BothFinal(files) {
      assert Candidates(files, files[PreparedReceipt], files[PreparedSummary]);
    }
  }

  /** What a recovery answers to contents it has to check: the first thing wrong
      with them, a rejected receipt with its own rejection. Beside final files,
      copies that differ, or are too long to compare, are looked for first. */
  lemma RecoveryAnswers(files: Files, package: Package, r: Bytes, s: Bytes)
    requires Candidates(files, r, s)
    ensures var same := SameIfBoth(files, PreparedReceipt, Receipt) && SameIfBoth(files, PreparedSummary, Summary);
            var long := (PreparedReceipt in files && |r| > 65_536) || (PreparedSummary in files && |s| > 4096);
            RecoverResult(files, package) ==
            if BothFinal(files) && (!same || long) then Err(DestinationExists)
            else if |r| > 65_536 then Err(InvalidBundle)
            else if package.check(r).Some? then Err(package.check(r).value)
            else if |s| > 4096 || s != package.summary then Err(InvalidBundle)
            else if same then Ok(true) else Err(DestinationExists)
  {
  }

  /** With valid prepared files, recovery succeeds exactly when neither final
      file conflicts with its preparation. */
  lemma RecoversUnlessConflict(files: Files, package: Package)
    requires PreparedReceipt in files && PreparedSummary in files
    requires Validation(files, package, PreparedReceipt, PreparedSummary).Ok?
    ensures RecoverResult(files, package) ==
            if Agreeable(files, PreparedReceipt, Receipt, RECEIPT_MAX)
               && Agreeable(files, PreparedSummary, Summary, SUMMARY_MAX)
            then Ok(true) else Err(DestinationExists)
  {
  }

  /** A recovery that fails leaves the files as they were, except in one
      family: valid preparations, no final receipt, and a summary that
      conflicts. There the receipt is published before the conflict is seen. */
  lemma FailureLeavesFiles(files: Files, package: Package)
    requires RecoverResult(files, package).Err?
    ensures RecoverFiles(files, package) == files
            <==> !(&& PreparedReceipt in files && PreparedSummary in files
                   && Validation(files, package, PreparedReceipt, PreparedSummary).Ok?
                   && Receipt !in files && Summary in files)
  {
    hide Validation;
    if PreparedReceipt in files && PreparedSummary in files && Receipt !in files {
      assert Receipt in Linked(files, PreparedReceipt, Receipt);
    }
  }

  lemma FailureCanPublish(r: Bytes, s: Bytes, other: Bytes)
    requires |r| <= RECEIPT_MAX && |s| <= SUMMARY_MAX && other != s
    ensures var files := map[PreparedReceipt := r, PreparedSummary := s, Summary := other];
            var package := Package(_ => None, s);
            && RecoverResult(files, package) == Err(DestinationExists)
            && RecoverFiles(files, package) == files[Receipt := r]
  {
  }
}
