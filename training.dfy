/**
 * Enrollment: every file of the enrollment directory is validated by name, then handed
 * to the face library; a file is enrolled only when its name is valid and exactly one
 * face is found in it.  The library is an input: `detect` says, per filename, how many
 * faces were located and the encoding of the face, or that a library call raised.
 */
module Training {
  import opened Filenames

  /** An enrolled person: the two halves of the file's stem around its underscore. */
  datatype Identity = Identity(name: string, id: string)

  /**
   * What processing one image gives: `Raised` when loading the image, locating its faces
   * or (for a single face) encoding it raised; otherwise the number of faces located and
   * the encoding of the first one, which is only used when there is exactly one.
   */
  datatype Probe<E> = Raised(message: string) | Located(faces: nat, encoding: E)

  /** The encoding store: two parallel lists, one encoding and one identity per enrolled file. */
  datatype Store<E> = Store(encodings: seq<E>, metadata: seq<Identity>)

  /** What a training run builds: the store and the messages of the skipped files. */
  datatype Report<E> = Report(store: Store<E>, skipped: seq<string>)

  /** The decision for one file. */
  datatype Verdict<E> = Enroll(who: Identity, encoding: E) | Skip(message: string)

  const NoFaces := "No faces detected"
  const ManyFaces := "Multiple faces detected"

  /** The line recorded for a skipped file. */
  function SkipLine(filename: string, reason: string): string {
    filename + ": " + reason
  }

  /** The identity a valid filename enrolls; joined back with '_' it gives the file's stem. */
  function IdentityOf(filename: string): (who: Identity)
    requires Validate(filename).0
    ensures who.name + "_" + who.id == SplitExt(filename).0
    ensures '_' !in who.name && IsDigits(who.id)
  {
    var stem := SplitExt(filename).0;
    assert '_' in multiset(stem);
    var parts := SplitAtUnderscore(stem);
    Identity(parts.0, parts.1)
  }

  /** A file that is enrolled: its name is valid and exactly one face was located. */
  predicate Enrollable<E>(filename: string, probe: Probe<E>) {
    Validate(filename).0 && probe.Located? && probe.faces == 1
  }

  /** The body of the training loop for one file. */
  function Assess<E>(filename: string, probe: Probe<E>): Verdict<E> {
    var (valid, reason) := Validate(filename);
    if !valid then Skip(SkipLine(filename, reason))
    else match probe
      case Raised(message) => Skip(SkipLine(filename, message))
      case Located(faces, encoding) =>
        if faces == 0 then Skip(SkipLine(filename, NoFaces))
        else if faces > 1 then Skip(SkipLine(filename, ManyFaces))
        else Enroll(IdentityOf(filename), encoding)
  }

  /** A file's verdict is to enroll it exactly when it is enrollable, with its identity and encoding. */
  lemma AssessEnrolls<E>(filename: string, probe: Probe<E>)
    ensures Assess(filename, probe).Enroll? <==> Enrollable(filename, probe)
    ensures Enrollable(filename, probe) ==>
      Assess(filename, probe) == Enroll(IdentityOf(filename), probe.encoding)
  {
  }

  /** The reason recorded for a file that is not enrolled: the first check it fails. */
  lemma AssessSkips<E>(filename: string, probe: Probe<E>)
    ensures !Validate(filename).0 ==> Assess(filename, probe) == Skip(SkipLine(filename, Validate(filename).1))
    ensures Validate(filename).0 && probe.Raised? ==> Assess(filename, probe) == Skip(SkipLine(filename, probe.message))
    ensures Validate(filename).0 && probe.Located? && probe.faces == 0 ==> Assess(filename, probe) == Skip(SkipLine(filename, NoFaces))
    ensures Validate(filename).0 && probe.Located? && probe.faces > 1 ==> Assess(filename, probe) == Skip(SkipLine(filename, ManyFaces))
  {
  }

  /** Adds one decision to a report: an enrolled file grows both lists of the store together. */
  function Record<E>(r: Report<E>, v: Verdict<E>): Report<E> {
    match v
    case Enroll(who, encoding) =>
      Report(Store(r.store.encodings + [encoding], r.store.metadata + [who]), r.skipped)
    case Skip(message) => Report(r.store, r.skipped + [message])
  }

  /** Recording a decision after two joined reports records it in the second. */
  lemma RecordJoin<E>(a: Report<E>, b: Report<E>, v: Verdict<E>)
    ensures Record(Join(a, b), v) == Join(a, Record(b, v))
  {
    match v
    case Enroll(who, encoding) =>
      assert a.store.encodings + b.store.encodings + [encoding]
        == a.store.encodings + (b.store.encodings + [encoding]);
      assert a.store.metadata + b.store.metadata + [who]
        == a.store.metadata + (b.store.metadata + [who]);
    case Skip(message) =>
      assert a.skipped + b.skipped + [message] == a.skipped + (b.skipped + [message]);
  }

  /** Recording a decision keeps every entry already in the store. */
  lemma RecordKeeps<E>(r: Report<E>, v: Verdict<E>)
    ensures forall k :: 0 <= k < |r.store.metadata| ==> Record(r, v).store.metadata[k] == r.store.metadata[k]
    ensures forall k :: 0 <= k < |r.store.encodings| ==> Record(r, v).store.encodings[k] == r.store.encodings[k]
  {
  }

  /** The report built by recording, file after file, the verdict `judge` gives each. */
  function Tally<E>(filenames: seq<string>, judge: string -> Verdict<E>): Report<E> {
    if filenames == [] then Report(Store([], []), [])
    else Record(Tally(filenames[..|filenames| - 1], judge), judge(filenames[|filenames| - 1]))
  }

  /** The verdict the training loop gives each file. */
  function Judge<E>(detect: string -> Probe<E>): string -> Verdict<E> {
    f => Assess(f, detect(f))
  }

  /** What training over the files in this order builds. */
  function Train<E>(filenames: seq<string>, detect: string -> Probe<E>): Report<E> {
    Tally(filenames, Judge(detect))
  }

  /** Two reports one after the other, as training the files of both in turn gives them. */
  function Join<E>(a: Report<E>, b: Report<E>): Report<E> {
    Report(Store(a.store.encodings + b.store.encodings, a.store.metadata + b.store.metadata),
           a.skipped + b.skipped)
  }

  /** The number of files that are enrolled. */
  function CountEnrollable<E>(filenames: seq<string>, detect: string -> Probe<E>): nat {
    if filenames == [] then 0
    else
      var last := filenames[|filenames| - 1];
      CountEnrollable(filenames[..|filenames| - 1], detect) + (if Enrollable(last, detect(last)) then 1 else 0)
  }

  /**
   * `train_model`: the loop over the directory listing, growing the encodings, the
   * metadata and the skipped messages step by step.
   */
  method TrainModel<E>(filenames: seq<string>, detect: string -> Probe<E>)
    returns (store: Store<E>, skipped: seq<string>)
    ensures Report(store, skipped) == Train(filenames, detect)
    ensures |store.encodings| == |store.metadata|
    ensures |store.metadata| + |skipped| == |filenames|
  {
    var knownEncodings: seq<E> := [];
    var knownMetadata: seq<Identity> := [];
    var skippedFiles: seq<string> := [];
    for i := 0 to |filenames|
      invariant Report(Store(knownEncodings, knownMetadata), skippedFiles) == Train(filenames[..i], detect)
    {
      var filename := filenames[i];
      assert filenames[..i + 1][..i] == filenames[..i];
      var (valid, reason) := Validate(filename);
      if !valid {
        skippedFiles := skippedFiles + [SkipLine(filename, reason)];
        continue;
      }
      var probe := detect(filename);
      if probe.Raised? {
        skippedFiles := skippedFiles + [SkipLine(filename, probe.message)];
        continue;
      }
      if probe.faces == 0 {
        skippedFiles := skippedFiles + [SkipLine(filename, NoFaces)];
        continue;
      }
      if probe.faces > 1 {
        skippedFiles := skippedFiles + [SkipLine(filename, ManyFaces)];
        continue;
      }
      var who := IdentityOf(filename);
      knownEncodings := knownEncodings + [probe.encoding];
      knownMetadata := knownMetadata + [who];
    }
    assert filenames[..|filenames|] == filenames;
    store, skipped := Store(knownEncodings, knownMetadata), skippedFiles;
    TrainSizes(filenames, detect);
  }

  /**
   * The two lists of the store grow in lockstep, every file lands either in the store or
   * among the skipped messages, and the store holds exactly the enrollable files.
   */
  lemma {:induction false} TrainSizes<E>(filenames: seq<string>, detect: string -> Probe<E>)
    ensures var r := Train(filenames, detect);
      && |r.store.encodings| == |r.store.metadata| == CountEnrollable(filenames, detect)
      && |r.store.metadata| + |r.skipped| == |filenames|
  {
    if filenames != [] {
      var last := filenames[|filenames| - 1];
      TrainSizes(filenames[..|filenames| - 1], detect);
      AssessEnrolls(last, detect(last));
    }
  }

  /** Tallying a single file records its verdict alone. */
  lemma TallyOne<E>(filename: string, judge: string -> Verdict<E>)
    ensures Tally([filename], judge) == Record(Report(Store([], []), []), judge(filename))
  {
    assert [filename][..0] == [];
  }

  /** Training a single file enrolls it exactly when it is enrollable, else records one reason. */
  lemma TrainOne<E>(filename: string, detect: string -> Probe<E>)
    ensures var r, p := Train([filename], detect), detect(filename);
      && (Enrollable(filename, p) ==>
            r == Report(Store([p.encoding], [IdentityOf(filename)]), []))
      && (!Validate(filename).0 ==>
            r == Report(Store([], []), [SkipLine(filename, Validate(filename).1)]))
      && (Validate(filename).0 && p.Raised? ==>
            r == Report(Store([], []), [SkipLine(filename, p.message)]))
      && (Validate(filename).0 && p.Located? && p.faces == 0 ==>
            r == Report(Store([], []), [SkipLine(filename, NoFaces)]))
      && (Validate(filename).0 && p.Located? && p.faces > 1 ==>
            r == Report(Store([], []), [SkipLine(filename, ManyFaces)]))
  {
    TallyOne(filename, Judge(detect));
    AssessEnrolls(filename, detect(filename));
    AssessSkips(filename, detect(filename));
  }

  /** Tallying `a` then `b` gives the report of `a` followed by that of `b`. */
  lemma {:induction false} TallyAppend<E>(a: seq<string>, b: seq<string>, judge: string -> Verdict<E>)
    ensures Tally(a + b, judge) == Join(Tally(a, judge), Tally(b, judge))
  {
    if b == [] {
      assert a + b == a;
    } else {
      var b', last := b[..|b| - 1], b[|b| - 1];
      assert (a + b)[..|a + b| - 1] == a + b';
      assert (a + b)[|a + b| - 1] == last;
      TallyAppend(a, b', judge);
      RecordJoin(Tally(a, judge), Tally(b', judge), judge(last));
    }
  }

  /**
   * Training is order-preserving: the files of `a` then those of `b` give the report of
   * `a` followed by that of `b`.
   */
  lemma TrainAppend<E>(a: seq<string>, b: seq<string>, detect: string -> Probe<E>)
    ensures Train(a + b, detect) == Join(Train(a, detect), Train(b, detect))
  {
    TallyAppend(a, b, Judge(detect));
  }

  /** A tally's two lists grow in lockstep. */
  lemma {:induction false} TallyLockstep<E>(filenames: seq<string>, judge: string -> Verdict<E>)
    ensures |Tally(filenames, judge).store.encodings| == |Tally(filenames, judge).store.metadata|
  {
    if filenames != [] {
      TallyLockstep(filenames[..|filenames| - 1], judge);
    }
  }

  /** Every entry of a tally is the enrolment verdict of one of the files. */
  lemma {:induction false} TallyEntryFrom<E>(filenames: seq<string>, judge: string -> Verdict<E>, k: nat)
    returns (j: nat)
    requires k < |Tally(filenames, judge).store.metadata|
    ensures k < |Tally(filenames, judge).store.encodings|
    ensures j < |filenames|
    ensures judge(filenames[j]) ==
      Enroll(Tally(filenames, judge).store.metadata[k], Tally(filenames, judge).store.encodings[k])
  {
    var prefix, last := filenames[..|filenames| - 1], filenames[|filenames| - 1];
    TallyLockstep(filenames, judge);
    TallyLockstep(prefix, judge);
    var r', v := Tally(prefix, judge), judge(last);
    RecordKeeps(r', v);
    if k < |r'.store.metadata| {
      j := TallyEntryFrom(prefix, judge, k);
      assert filenames[j] == prefix[j];
    } else {
      j := |filenames| - 1;
    }
  }

  /** Every file whose verdict is to enroll it has its entry in the tally. */
  lemma {:induction false} TallyEnrollsEvery<E>(filenames: seq<string>, judge: string -> Verdict<E>, j: nat)
    returns (k: nat)
    requires j < |filenames| && judge(filenames[j]).Enroll?
    ensures k < |Tally(filenames, judge).store.metadata| && k < |Tally(filenames, judge).store.encodings|
    ensures judge(filenames[j]) ==
      Enroll(Tally(filenames, judge).store.metadata[k], Tally(filenames, judge).store.encodings[k])
  {
    var prefix, last := filenames[..|filenames| - 1], filenames[|filenames| - 1];
    TallyLockstep(prefix, judge);
    var r', v := Tally(prefix, judge), judge(last);
    RecordKeeps(r', v);
    if j < |prefix| {
      assert prefix[j] == filenames[j];
      k := TallyEnrollsEvery(prefix, judge, j);
    } else {
      k := |r'.store.metadata|;
    }
  }

  /**
   * Every entry of the store comes from an enrollable file, with that file's encoding and
   * the identity read from its name.
   */
  lemma TrainEntryFrom<E>(filenames: seq<string>, detect: string -> Probe<E>, k: nat)
    returns (j: nat)
    requires k < |Train(filenames, detect).store.metadata|
    ensures j < |filenames| && Enrollable(filenames[j], detect(filenames[j]))
    ensures k < |Train(filenames, detect).store.encodings|
    ensures Train(filenames, detect).store.metadata[k] == IdentityOf(filenames[j])
    ensures Train(filenames, detect).store.encodings[k] == detect(filenames[j]).encoding
  {
    j := TallyEntryFrom(filenames, Judge(detect), k);
    AssessEnrolls(filenames[j], detect(filenames[j]));
  }

  /** Every enrollable file is in the store, with its identity and its encoding. */
  lemma TrainEnrollsEvery<E>(filenames: seq<string>, detect: string -> Probe<E>, j: nat)
    returns (k: nat)
    requires j < |filenames|
    requires Enrollable(filenames[j], detect(filenames[j]))
    ensures k < |Train(filenames, detect).store.metadata| && k < |Train(filenames, detect).store.encodings|
    ensures Train(filenames, detect).store.metadata[k] == IdentityOf(filenames[j])
    ensures Train(filenames, detect).store.encodings[k] == detect(filenames[j]).encoding
  {
    AssessEnrolls(filenames[j], detect(filenames[j]));
    k := TallyEnrollsEvery(filenames, Judge(detect), j);
  }
}
