/** The naming and decision rules of the command-line front end (main.py),
    and the summary-naming rule of the graphical front end (gui.py), as pure
    functions of the strings they are computed from. The timestamp that
    main.py takes from the clock is a parameter. */
module Naming {
  import opened Strings
  import opened Paths

  /** The directory every artifact name is joined below. */
  const OutputDir: string := "output"
  /** The recording name used when the user enters a blank one. */
  const DefaultName: string := "meeting"
  const AudioExt: string := ".wav"
  const TranscriptTag: string := "_transcript"
  const TranscriptSuffix: string := "_transcript.txt"
  const SummarySuffix: string := "_summary.md"
  /** The only answer that declines a continuation prompt. */
  const Decline: string := "n"

  predicate IsDigit(c: char) {
    '0' <= c <= '9'
  }

  /** The shape `time.strftime("%Y%m%d_%H%M%S")` produces: eight digits of
      date, an underscore and six digits of time. */
  predicate IsTimestamp(ts: string) {
    |ts| == 15 && ts[8] == '_' &&
    forall i :: 0 <= i < |ts| && i != 8 ==> IsDigit(ts[i])
  }

  /** The recording name: the user's input stripped, or the default when
      nothing is left. */
  function RecordingName(input: string): string {
    var name := Strip(input);
    if name == [] then DefaultName else name
  }

  /** Where `record_workflow` saves the audio: `<name>_<timestamp>.wav`
      joined below the output directory. */
  function RecordingPath(input: string, timestamp: string): string {
    Join(OutputDir, RecordingName(input) + "_" + timestamp + AudioExt)
  }

  /** Where `transcribe_workflow` (and the graphical pipeline) saves the
      transcript of an audio file. */
  function TranscriptPath(audioPath: string): string {
    Join(OutputDir, Stem(audioPath) + TranscriptSuffix)
  }

  /** Where the command-line pipeline saves the summary of the transcript it
      wrote: `text_path.replace("_transcript.txt", "_summary.md")`. */
  function SummaryPath(textPath: string): string {
    ReplaceAll(textPath, TranscriptSuffix, SummarySuffix)
  }

  /** The stem `--summarize` mode names its summary after: the file stem of
      the transcript, with every `_transcript` removed when it ends in one. */
  function SummaryStem(textPath: string): string {
    var stem := Stem(textPath);
    if EndsWith(stem, TranscriptTag) then ReplaceAll(stem, TranscriptTag, "") else stem
  }

  /** Where `--summarize` mode saves the summary of a given text file. */
  function SummarizeModePath(textPath: string): string {
    Join(OutputDir, SummaryStem(textPath) + SummarySuffix)
  }

  /** Where the graphical pipeline saves the summary of an audio file. */
  function GuiSummaryPath(audioPath: string): string {
    Join(OutputDir, Stem(audioPath) + SummarySuffix)
  }

  /** A `[Y/n]` prompt goes on unless the stripped, lower-cased answer is `n`. */
  predicate Proceed(answer: string) {
    Lower(Strip(answer)) != Decline
  }

  // ---------------------------------------------------------------------------
  // Facts about the constants

  lemma {:induction false} TranscriptSuffixUnbordered()
    ensures Unbordered(TranscriptSuffix)
  {
    UniqueHeadUnbordered(TranscriptSuffix);
  }

  lemma {:induction false} TranscriptTagUnbordered()
    ensures Unbordered(TranscriptTag)
  {
    UniqueHeadUnbordered(TranscriptTag);
  }

  // ---------------------------------------------------------------------------
  // Recording path

  /** The recording name is never blank: a blank input (only whitespace, or
      nothing) gives `meeting`, any other input gives its stripped form. */
  lemma {:induction false} RecordingNameDefaults(input: string)
    ensures RecordingName(input) != [] && Trimmed(RecordingName(input))
    ensures AllSpace(input) ==> RecordingName(input) == DefaultName
    ensures !AllSpace(input) ==> RecordingName(input) == Strip(input)
  {
    StripEmptyIffBlank(input);
    StripIsTrimmedInfix(input);
  }

  /** A file name that is not absolute is joined below the output directory;
      when it has no separator it is also the final component of the result. */
  lemma {:induction false} JoinBelowOutput(file: string)
    requires file == [] || file[0] != Sep
    ensures Join(OutputDir, file) == OutputDir + "/" + file
    ensures Sep !in file ==> Basename(Join(OutputDir, file)) == file
  {
    JoinRelative(OutputDir, file);
  }

  lemma {:induction false} RecordingFileShape(name: string, timestamp: string)
    requires name != []
    ensures var file := name + "_" + timestamp + AudioExt;
      && (name[0] != Sep ==> Join(OutputDir, file) == OutputDir + "/" + file)
      && (name[0] == Sep ==> Join(OutputDir, file) == file)
  {
    var file := name + "_" + timestamp + AudioExt;
    assert file[0] == name[0];
    if name[0] != Sep {
      JoinBelowOutput(file);
    }
  }

  /** The recording is `output/<name>_<timestamp>.wav`, unless the name the
      user gave is an absolute path, which `join` then keeps as it is. */
  lemma {:induction false} RecordingPathShape(input: string, timestamp: string)
    ensures var name := RecordingName(input);
      name[0] != Sep ==> RecordingPath(input, timestamp) == OutputDir + "/" + name + "_" + timestamp + AudioExt
    ensures var name := RecordingName(input);
      name[0] == Sep ==> RecordingPath(input, timestamp) == name + "_" + timestamp + AudioExt
    ensures AllSpace(input) ==>
      RecordingPath(input, timestamp) == "output/meeting_" + timestamp + ".wav"
  {
    RecordingNameDefaults(input);
    RecordingFileShape(RecordingName(input), timestamp);
  }

  // ---------------------------------------------------------------------------
  // Transcript path

  /** A name made of a file stem and a suffix, neither with a separator, is
      joined below the output directory and stays the final component. */
  lemma {:induction false} StemFileShape(stem: string, suffix: string)
    requires Sep !in stem && Sep !in suffix && suffix != []
    ensures Join(OutputDir, stem + suffix) == OutputDir + "/" + stem + suffix
    ensures Basename(Join(OutputDir, stem + suffix)) == stem + suffix
  {
    var file := stem + suffix;
    assert file[0] != Sep by {
      if stem != [] { assert file[0] == stem[0]; } else { assert file[0] == suffix[0]; }
    }
    JoinBelowOutput(file);
  }

  /** The transcript is `output/` + the file stem + `_transcript.txt`, where the
      stem is the audio file's name with at most its last extension removed. */
  lemma {:induction false} TranscriptPathShape(audioPath: string)
    ensures Sep !in Stem(audioPath)
    ensures TranscriptPath(audioPath) == OutputDir + "/" + Stem(audioPath) + TranscriptSuffix
    ensures Basename(TranscriptPath(audioPath)) == Stem(audioPath) + TranscriptSuffix
    ensures var ext := SplitExt(Basename(audioPath)).1;
      && Basename(audioPath) == Stem(audioPath) + ext
      && (ext == [] || (ext[0] == ExtSep && ExtSep !in ext[1..]))
  {
    StemParts(audioPath);
    StemFileShape(Stem(audioPath), TranscriptSuffix);
  }

  /** The stem of a recording made by `record_workflow` is `<name>_<timestamp>`. */
  lemma {:induction false} RecordingStem(name: string, timestamp: string)
    requires IsTimestamp(timestamp) && Sep !in name
    ensures Stem(Join(OutputDir, name + "_" + timestamp + AudioExt)) == name + "_" + timestamp
  {
    var root := name + "_" + timestamp;
    assert Sep !in timestamp by {
      forall i | 0 <= i < |timestamp| ensures timestamp[i] != Sep {
        if i != 8 { assert IsDigit(timestamp[i]); }
      }
    }
    assert Sep !in root;
    StemFileShape(root, AudioExt);
    assert root + AudioExt == name + "_" + timestamp + AudioExt;
    assert root[|name|] == '_';
    assert HasNonDot(root);
    SplitExtOfRootAndExt(root, AudioExt);
  }

  /** A recording made by `record_workflow` gets the transcript
      `output/<name>_<timestamp>_transcript.txt`: only `.wav` is dropped. */
  lemma {:induction false} RecordingTranscriptPath(input: string, timestamp: string)
    requires IsTimestamp(timestamp) && Sep !in RecordingName(input)
    ensures TranscriptPath(RecordingPath(input, timestamp))
         == OutputDir + "/" + RecordingName(input) + "_" + timestamp + TranscriptSuffix
  {
    RecordingStem(RecordingName(input), timestamp);
    TranscriptPathShape(RecordingPath(input, timestamp));
  }

  // ---------------------------------------------------------------------------
  // Summary path of the command-line pipeline

  /** `replace` on `output/<stem>_transcript.txt` touches the stem and the final
      suffix only: the directory holds no `_`, and the final `_transcript.txt`
      cannot overlap an earlier match. */
  lemma {:induction false} SummaryOfStem(stem: string)
    ensures SummaryPath(OutputDir + "/" + stem + TranscriptSuffix)
         == OutputDir + "/" + ReplaceAll(stem, TranscriptSuffix, SummarySuffix) + SummarySuffix
  {
    TranscriptSuffixUnbordered();
    assert OutputDir + "/" + stem + TranscriptSuffix == (OutputDir + "/") + (stem + TranscriptSuffix);
    ReplaceAllSkipsPrefix(OutputDir + "/", stem + TranscriptSuffix, TranscriptSuffix, SummarySuffix);
    ReplaceAllOfSuffixed(stem, TranscriptSuffix, SummarySuffix);
  }

  /** Renaming the transcript path of any audio file gives a path below the
      output directory that ends in `_summary.md`. */
  lemma {:induction false} SummaryPathOfTranscript(audioPath: string)
    ensures SummaryPath(TranscriptPath(audioPath))
         == OutputDir + "/" + ReplaceAll(Stem(audioPath), TranscriptSuffix, SummarySuffix) + SummarySuffix
    ensures EndsWith(SummaryPath(TranscriptPath(audioPath)), SummarySuffix)
  {
    TranscriptPathShape(audioPath);
    SummaryOfStem(Stem(audioPath));
  }

  /** The graphical rule names the summary `output/<stem>_summary.md`. */
  lemma {:induction false} GuiSummaryPathShape(audioPath: string)
    ensures GuiSummaryPath(audioPath) == OutputDir + "/" + Stem(audioPath) + SummarySuffix
  {
    StemParts(audioPath);
    StemFileShape(Stem(audioPath), SummarySuffix);
  }

  /** When the stem holds no `_transcript.txt` of its own, the command-line
      rule and the graphical front end's rule name the same summary file. */
  lemma {:induction false} SummaryPathAgreesWithGui(audioPath: string)
    requires !Occurs(Stem(audioPath), TranscriptSuffix)
    ensures SummaryPath(TranscriptPath(audioPath)) == GuiSummaryPath(audioPath)
    ensures GuiSummaryPath(audioPath) == OutputDir + "/" + Stem(audioPath) + SummarySuffix
  {
    var stem := Stem(audioPath);
    SummaryPathOfTranscript(audioPath);
    TranscriptPathShape(audioPath);
    ReplaceAllAbsent(stem, TranscriptSuffix, SummarySuffix);
    StemFileShape(stem, SummarySuffix);
  }

  /** Conversely, whenever the stem holds `_transcript.txt` anywhere, the
      command-line summary name is shorter than the graphical one, so the two
      differ. */
  lemma {:induction false} SummaryPathDiffersWhenTagged(audioPath: string)
    requires Occurs(Stem(audioPath), TranscriptSuffix)
    ensures SummaryPath(TranscriptPath(audioPath)) != GuiSummaryPath(audioPath)
  {
    var stem := Stem(audioPath);
    var replaced := ReplaceAll(stem, TranscriptSuffix, SummarySuffix);
    assert |SummaryPath(TranscriptPath(audioPath))| == |OutputDir| + 1 + |replaced| + |SummarySuffix| by {
      SummaryPathOfTranscript(audioPath);
    }
    assert |GuiSummaryPath(audioPath)| == |OutputDir| + 1 + |stem| + |SummarySuffix| by {
      GuiSummaryPathShape(audioPath);
    }
    ReplaceAllShorter(stem, TranscriptSuffix, SummarySuffix);
  }

  /** The command-line and graphical rules name the same summary file
      exactly when the stem holds no `_transcript.txt`. */
  lemma {:induction false} SummaryPathAgreesWithGuiIff(audioPath: string)
    ensures SummaryPath(TranscriptPath(audioPath)) == GuiSummaryPath(audioPath)
        <==> !Occurs(Stem(audioPath), TranscriptSuffix)
  {
    if Occurs(Stem(audioPath), TranscriptSuffix) {
      SummaryPathDiffersWhenTagged(audioPath);
    } else {
      SummaryPathAgreesWithGui(audioPath);
    }
  }

  /** A name of the form `meeting_<timestamp>` holds no `_transcript.txt`: the
      tag has a `.`, and neither the default name nor a timestamp does. */
  lemma {:induction false} DefaultStemUntagged(ts: string)
    requires IsTimestamp(ts)
    ensures !Occurs(DefaultName + "_" + ts, TranscriptSuffix)
  {
    var s := DefaultName + "_" + ts;
    forall i | 0 <= i <= |s| - |TranscriptSuffix| ensures !OccursAt(s, TranscriptSuffix, i) {
      assert s[i + 11] == ts[i + 3];
      assert ts[i + 3] != '.' by {
        if i + 3 != 8 { assert IsDigit(ts[i + 3]); }
      }
      assert s[i..i + |TranscriptSuffix|][11] != TranscriptSuffix[11];
    }
  }

  /** The graphical front end only ever summarises its own recording
      `output/meeting_<timestamp>.wav`, and for that file the command-line
      rule gives the same summary name. */
  lemma {:induction false} GuiOwnRecordingAgrees(ts: string)
    requires IsTimestamp(ts)
    ensures SummaryPath(TranscriptPath(Join(OutputDir, DefaultName + "_" + ts + AudioExt)))
         == GuiSummaryPath(Join(OutputDir, DefaultName + "_" + ts + AudioExt))
    ensures GuiSummaryPath(Join(OutputDir, DefaultName + "_" + ts + AudioExt))
         == OutputDir + "/" + DefaultName + "_" + ts + SummarySuffix
  {
    var audioPath := Join(OutputDir, DefaultName + "_" + ts + AudioExt);
    RecordingStem(DefaultName, ts);
    DefaultStemUntagged(ts);
    SummaryPathAgreesWithGui(audioPath);
  }

  /** A stem made of `x` followed by `_transcript.txt` has that tag replaced
      too, so there the command-line and graphical rules name the summary
      differently. */
  lemma {:induction false} SummaryPathOfTaggedStem(audioPath: string, x: string)
    requires Stem(audioPath) == x + TranscriptSuffix
    requires !Occurs(x, TranscriptSuffix)
    ensures SummaryPath(TranscriptPath(audioPath)) == OutputDir + "/" + x + SummarySuffix + SummarySuffix
    ensures GuiSummaryPath(audioPath) == OutputDir + "/" + x + TranscriptSuffix + SummarySuffix
    ensures SummaryPath(TranscriptPath(audioPath)) != GuiSummaryPath(audioPath)
  {
    var prefix := OutputDir + "/" + x;
    assert SummaryPath(TranscriptPath(audioPath)) == prefix + SummarySuffix + SummarySuffix by {
      SummaryPathOfTranscript(audioPath);
      ReplaceTaggedStem(x);
      Regroup(OutputDir + "/", x, SummarySuffix, SummarySuffix);
    }
    assert GuiSummaryPath(audioPath) == prefix + TranscriptSuffix + SummarySuffix by {
      GuiSummaryPathShape(audioPath);
      Regroup(OutputDir + "/", x, TranscriptSuffix, SummarySuffix);
    }
    TaggedSummariesDiffer(prefix);
  }

  lemma {:induction false} Regroup(a: string, b: string, c: string, d: string)
    ensures a + (b + c) + d == a + b + c + d
  {
  }

  lemma {:induction false} ReplaceTaggedStem(x: string)
    requires !Occurs(x, TranscriptSuffix)
    ensures ReplaceAll(x + TranscriptSuffix, TranscriptSuffix, SummarySuffix) == x + SummarySuffix
  {
    TranscriptSuffixUnbordered();
    ReplaceAllOfSuffixed(x, TranscriptSuffix, SummarySuffix);
    ReplaceAllAbsent(x, TranscriptSuffix, SummarySuffix);
  }

  lemma {:induction false} TaggedSummariesDiffer(prefix: string)
    ensures prefix + SummarySuffix + SummarySuffix != prefix + TranscriptSuffix + SummarySuffix
  {
    var a := prefix + SummarySuffix + SummarySuffix;
    var b := prefix + TranscriptSuffix + SummarySuffix;
    assert a[|prefix| + 1] == SummarySuffix[1] != TranscriptSuffix[1] == b[|prefix| + 1];
  }

  /** The stem of a name with no separator is the name up to its one
      dotted extension, when something other than a dot comes before it. */
  lemma {:induction false} StemOfName(root: string, ext: string)
    requires Sep !in root && Sep !in ext
    requires |ext| > 0 && ext[0] == ExtSep && ExtSep !in ext[1..]
    requires HasNonDot(root)
    ensures Stem(root + ext) == root
  {
    RFindAbsent(root + ext, Sep);
    assert Basename(root + ext) == root + ext;
    SplitExtOfRootAndExt(root, ext);
  }

  /** So an audio file named `<x>_transcript.txt.wav` (for instance
      `a_transcript.txt.wav`) gets the command-line summary
      `output/<x>_summary.md_summary.md` but the graphical one
      `output/<x>_transcript.txt_summary.md`. */
  lemma {:induction false} SummaryPathDiffersFromGui(x: string)
    requires Sep !in x
    requires !Occurs(x, TranscriptSuffix)
    ensures Stem(x + TranscriptSuffix + AudioExt) == x + TranscriptSuffix
    ensures SummaryPath(TranscriptPath(x + TranscriptSuffix + AudioExt))
         == OutputDir + "/" + x + SummarySuffix + SummarySuffix
    ensures GuiSummaryPath(x + TranscriptSuffix + AudioExt)
         == OutputDir + "/" + x + TranscriptSuffix + SummarySuffix
    ensures SummaryPath(TranscriptPath(x + TranscriptSuffix + AudioExt))
         != GuiSummaryPath(x + TranscriptSuffix + AudioExt)
  {
    var stem := x + TranscriptSuffix;
    assert Sep !in stem;
    assert stem[|x|] == '_';
    StemOfName(stem, AudioExt);
    SummaryPathOfTaggedStem(stem + AudioExt, x);
  }

  // ---------------------------------------------------------------------------
  // Summary path of --summarize mode

  /** `--summarize` always writes `output/<stem>_summary.md`, where the stem
      has no separator, and keeps a stem not ending in `_transcript` as it is. */
  lemma {:induction false} SummarizeModePathShape(textPath: string)
    ensures Sep !in SummaryStem(textPath)
    ensures SummarizeModePath(textPath) == OutputDir + "/" + SummaryStem(textPath) + SummarySuffix
    ensures !EndsWith(Stem(textPath), TranscriptTag) ==> SummaryStem(textPath) == Stem(textPath)
  {
    var stem := Stem(textPath);
    var s := SummaryStem(textPath);
    assert Sep !in s by {
      StemParts(textPath);
      if EndsWith(stem, TranscriptTag) {
        ReplaceAllKeepsCharOut(stem, TranscriptTag, "", Sep);
      }
    }
    var file := s + SummarySuffix;
    assert file[0] != Sep by {
      if s != [] { assert file[0] == s[0]; } else { assert file == SummarySuffix; }
    }
    JoinRelative(OutputDir, file);
  }

  /** The stem of a transcript this tool wrote is the audio stem followed by
      `_transcript`: only `.txt` is dropped. */
  lemma {:induction false} TranscriptStem(audioPath: string)
    ensures Stem(TranscriptPath(audioPath)) == Stem(audioPath) + TranscriptTag
  {
    var stem := Stem(audioPath);
    var root := stem + TranscriptTag;
    TranscriptPathShape(audioPath);
    assert Basename(TranscriptPath(audioPath)) == root + ".txt";
    assert Sep !in root;
    assert root[|stem|] == '_';
    assert HasNonDot(root);
    SplitExtOfRootAndExt(root, ".txt");
  }

  /** Taking every `_transcript` out of `<stem>_transcript` leaves `stem` when
      `stem` holds none of its own. */
  lemma {:induction false} RemoveTrailingTag(stem: string)
    requires !Occurs(stem, TranscriptTag)
    ensures ReplaceAll(stem + TranscriptTag, TranscriptTag, "") == stem
  {
    TranscriptTagUnbordered();
    ReplaceAllOfSuffixed(stem, TranscriptTag, "");
    ReplaceAllAbsent(stem, TranscriptTag, "");
  }

  /** A text holding `_transcript.txt` holds `_transcript`. */
  lemma {:induction false} NoSuffixWithoutTag(s: string)
    ensures Occurs(s, TranscriptSuffix) ==> Occurs(s, TranscriptTag)
  {
    if Occurs(s, TranscriptSuffix) {
      OccursPrefix(s, TranscriptSuffix, |TranscriptTag|);
      assert TranscriptSuffix[..|TranscriptTag|] == TranscriptTag;
    }
  }

  /** Given a transcript this tool wrote, `--summarize` names the summary
      exactly as the pipeline run would have, provided the original stem does
      not itself contain `_transcript`. */
  lemma {:induction false} SummarizeModeOfTranscriptPath(audioPath: string)
    requires !Occurs(Stem(audioPath), TranscriptTag)
    ensures SummarizeModePath(TranscriptPath(audioPath)) == GuiSummaryPath(audioPath)
    ensures SummarizeModePath(TranscriptPath(audioPath)) == SummaryPath(TranscriptPath(audioPath))
  {
    var stem := Stem(audioPath);
    var textPath := TranscriptPath(audioPath);
    assert SummaryStem(textPath) == stem by {
      TranscriptStem(audioPath);
      RemoveTrailingTag(stem);
      assert EndsWith(stem + TranscriptTag, TranscriptTag);
    }
    assert SummarizeModePath(textPath) == OutputDir + "/" + stem + SummarySuffix by {
      SummarizeModePathShape(textPath);
    }
    NoSuffixWithoutTag(stem);
    SummaryPathAgreesWithGui(audioPath);
  }

  lemma {:induction false} RemoveTwoTags(x: string, y: string)
    requires !Occurs(x, TranscriptTag) && !Occurs(y, TranscriptTag)
    ensures ReplaceAll(x + TranscriptTag + y + TranscriptTag, TranscriptTag, "") == x + y
  {
    var middle := x + TranscriptTag + y;
    TranscriptTagUnbordered();
    ReplaceAllOfSuffixed(middle, TranscriptTag, "");
    ReplaceAllAround(x, y, TranscriptTag, "");
    ReplaceAllAbsent(x, TranscriptTag, "");
    ReplaceAllAbsent(y, TranscriptTag, "");
    assert ReplaceAll(middle, TranscriptTag, "") == x + y;
  }

  /** `--summarize` removes every `_transcript` from a stem, not just the one
      at its end: `a_transcript_b_transcript.txt`, say, is summarised to
      `output/a_b_summary.md`. */
  lemma {:induction false} SummarizeModeRemovesEveryTag(x: string, y: string)
    requires Sep !in x && Sep !in y
    requires !Occurs(x, TranscriptTag) && !Occurs(y, TranscriptTag)
    ensures SummarizeModePath(x + TranscriptTag + y + TranscriptSuffix)
         == OutputDir + "/" + x + y + SummarySuffix
  {
    var stem := x + TranscriptTag + y + TranscriptTag;
    var path := stem + ".txt";
    assert path == x + TranscriptTag + y + TranscriptSuffix;
    assert SummaryStem(path) == x + y by {
      assert Stem(path) == stem by {
        assert Sep !in stem;
        assert stem[|x|] == '_';
        StemOfName(stem, ".txt");
      }
      RemoveTwoTags(x, y);
      assert EndsWith(stem, TranscriptTag);
    }
    SummarizeModePathShape(path);
  }

  // ---------------------------------------------------------------------------
  // Continuation prompts

  lemma {:induction false} LowerIsDecline(s: string)
    ensures Lower(s) == Decline <==> s == "n" || s == "N"
  {
    if Lower(s) == Decline {
      assert |s| == |Lower(s)| == 1;
      assert Lower(s)[0] == LowerChar(s[0]) == 'n';
      assert s[0] == 'n' || s[0] == 'N';
      assert s == [s[0]];
    }
    if s == "N" {
      assert Lower(s)[0] == LowerChar('N') == 'n';
      assert Lower(s) == [Lower(s)[0]];
    }
    if s == "n" {
      assert Lower(s)[0] == LowerChar('n') == 'n';
      assert Lower(s) == [Lower(s)[0]];
    }
  }

  /** The prompt goes on for every answer except `n` or `N`, whitespace
      around it allowed; in particular a blank answer goes on. */
  lemma {:induction false} ProceedUnlessNo(answer: string)
    ensures Proceed(answer) <==> Strip(answer) != "n" && Strip(answer) != "N"
    ensures AllSpace(answer) ==> Proceed(answer)
  {
    LowerIsDecline(Strip(answer));
    StripEmptyIffBlank(answer);
  }

  /** An `n` or `N` padded with whitespace declines. */
  lemma {:induction false} PaddedNoDeclines(pre: string, c: char, post: string)
    requires AllSpace(pre) && AllSpace(post) && (c == 'n' || c == 'N')
    ensures !Proceed(pre + [c] + post)
  {
    StripOfPadded(pre, [c], post);
    ProceedUnlessNo(pre + [c] + post);
  }
}
