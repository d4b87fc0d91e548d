/** The classifier call of esqabe/fingerprinting/classifiers/wekaAPI.py:
    the command line handed to the Weka classifier, and the reading of the
    CSV prediction lines it prints after its header line. The process is
    not started here: its standard output is a parameter, one string per
    line, each byte as one character. */
module WekaApi {
  import opened Common

  /** The configured Java heap size and the Weka jar, as the configuration
      file sets them (a Weka root of `weka-3-7-5` under an empty base). */
  const JVM_MEMORY_SIZE := "4192m"
  const WEKA_JAR := "weka-3-7-5/weka.jar"

  /** The header line after which Weka prints one prediction per line. */
  const HEADER := "inst#,actual,predicted,error,prediction"

  /** The fixed start of the command line. */
  function CommandPrefix(trainingFile: string, testingFile: string, classifier: string): (r: seq<string>)
    ensures |r| == 12
  {
    ["java",
     "-Xmx" + JVM_MEMORY_SIZE,
     "-classpath", "$CLASSPATH:" + WEKA_JAR,
     classifier,
     "-t", trainingFile,
     "-T", testingFile,
     "-v",
     "-classifications", "weka.classifiers.evaluation.output.prediction.CSV"]
  }

  /** The argument list of `execute`: the fixed start followed by the extra
      arguments, in order. */
  method CommandArgs(trainingFile: string, testingFile: string, classifier: string, args: seq<string>)
    returns (myArgs: seq<string>)
    ensures myArgs == CommandPrefix(trainingFile, testingFile, classifier) + args
  {
    myArgs := ["java",
      "-Xmx" + JVM_MEMORY_SIZE,
      "-classpath", "$CLASSPATH:" + WEKA_JAR,
      classifier,
      "-t", trainingFile,
      "-T", testingFile,
      "-v",
      "-classifications", "weka.classifiers.evaluation.output.prediction.CSV"];
    var i := 0;
    while i < |args|
      invariant 0 <= i <= |args|
      invariant myArgs == CommandPrefix(trainingFile, testingFile, classifier) + args[..i]
    {
      myArgs := myArgs + [args[i]];
      assert args[..i + 1] == args[..i] + [args[i]];
      i := i + 1;
    }
    assert args[..i] == args;
  }

  /** The shell command line: the arguments joined by single spaces. */
  function Command(myArgs: seq<string>): string
  {
    Join(myArgs, " ")
  }

  /** The command line is the fixed start followed, after one space, by the
      extra arguments in order; extra arguments without spaces are split
      back out of it by the shell. */
  lemma CommandWords(trainingFile: string, testingFile: string, classifier: string, args: seq<string>)
    ensures var prefix := CommandPrefix(trainingFile, testingFile, classifier);
      |args| == 0 ==> Command(prefix + args) == Command(prefix)
    ensures var prefix := CommandPrefix(trainingFile, testingFile, classifier);
      |args| > 0 ==> Command(prefix + args) == Command(prefix) + " " + Command(args)
    ensures |args| > 0 && (forall i :: 0 <= i < |args| ==> ' ' !in args[i]) ==> Split(Command(args), ' ') == args
  {
    JoinAppend(CommandPrefix(trainingFile, testingFile, classifier), args, " ");
    if |args| > 0 && (forall i :: 0 <= i < |args| ==> ' ' !in args[i]) {
      SplitJoin(args, ' ');
    }
  }

  // ---------------------------------------------------------------------
  // Reading the predictions

  /** ASCII whitespace, which `bytes.rstrip()` removes: space, and tab,
      line feed, vertical tab, form feed and carriage return (9 to 13). */
  predicate IsSpace(c: char)
  {
    c == ' ' || '\t' <= c <= '\r'
  }

  /** `bytes.rstrip()`: the line without its trailing whitespace. */
  function RStrip(s: string): (r: string)
    ensures r <= s
    ensures |r| == 0 || !IsSpace(r[|r| - 1])
    ensures forall i :: |r| <= i < |s| ==> IsSpace(s[i])
  {
    if |s| == 0 || !IsSpace(s[|s| - 1]) then s else RStrip(s[..|s| - 1])
  }

  /** The actual and the predicted class of one prediction line. */
  datatype Answer = Answer(actual: string, predicted: string)

  /** An index past the end of a split (an IndexError). */
  datatype ParseError = MissingField | MissingClass

  /** One prediction line: in the second and the third comma-separated
      field, the piece between the first ':' and the next ':' (or the end
      of the field), as `field.split(':')[1]` gives. */
  function ParseLine(line: string): (r: Result<Answer, ParseError>)
  {
    var lineBits := Split(line, ',');
    if |lineBits| < 3 then Err(MissingField)
    else
      var actual, predicted := Split(lineBits[1], ':'), Split(lineBits[2], ':');
      if |actual| < 2 || |predicted| < 2 then Err(MissingClass)
      else Ok(Answer(actual[1], predicted[1]))
  }

  /** A line `inst,n:actual,m:predicted,...` yields the two class names
      when no piece holds a comma or a colon. */
  lemma ParseLineReads(inst: string, n: string, actual: string, m: string, predicted: string, more: seq<string>)
    requires ',' !in inst && ',' !in n && ',' !in actual && ',' !in m && ',' !in predicted
    requires ':' !in n && ':' !in actual && ':' !in m && ':' !in predicted
    requires forall i :: 0 <= i < |more| ==> ',' !in more[i]
    ensures var bits := [inst, Join([n, actual], ":"), Join([m, predicted], ":")] + more;
      ParseLine(Join(bits, ",")) == Ok(Answer(actual, predicted))
  {
    var a, p := Join([n, actual], ":"), Join([m, predicted], ":");
    SplitJoin([n, actual], ':');
    SplitJoin([m, predicted], ':');
    var bits := [inst, a, p] + more;
    assert ',' !in a by {
      assert a == n + ":" + actual;
    }
    assert ',' !in p by {
      assert p == m + ":" + predicted;
    }
    forall k | 0 <= k < |bits| ensures ',' !in bits[k] {
      if k >= 3 {
        assert bits[k] == more[k - 3];
      }
    }
    SplitJoin(bits, ',');
  }

  /** What the output loop of `execute` yields from `lines` on, depending
      on whether the header was seen: before it, nothing; after it, one
      answer per line up to the first empty line. A line after the header
      that does not parse is an error. */
  function Answers(lines: seq<string>, parsing: bool): Result<seq<Answer>, ParseError>
    decreases |lines|
  {
    if |lines| == 0 then Ok([])
    else
      var line := RStrip(lines[0]);
      if !parsing then Answers(lines[1..], line == HEADER)
      else if line == [] then Ok([])
      else
        match ParseLine(line)
        case Err(e) => Err(e)
        case Ok(a) => Prepend(a, Answers(lines[1..], true))
  }

  function Prepend(a: Answer, r: Result<seq<Answer>, ParseError>): Result<seq<Answer>, ParseError>
  {
    match r
    case Err(e) => Err(e)
    case Ok(rest) => Ok([a] + rest)
  }

  function PrependAll(done: seq<Answer>, r: Result<seq<Answer>, ParseError>): Result<seq<Answer>, ParseError>
  {
    match r
    case Err(e) => Err(e)
    case Ok(rest) => Ok(done + rest)
  }

  /** The output loop of `execute`. */
  method ReadAnswers(stdout: seq<string>) returns (answers: Result<seq<Answer>, ParseError>)
    ensures answers == Answers(stdout, false)
  {
    var done: seq<Answer> := [];
    var parsing := false;
    var i := 0;
    assert stdout[i..] == stdout;
    assert PrependAll(done, Answers(stdout, false)) == Answers(stdout, false) by {
      if Answers(stdout, false).Ok? {
        assert done + Answers(stdout, false).value == Answers(stdout, false).value;
      }
    }
    while i < |stdout|
      invariant 0 <= i <= |stdout|
      invariant Answers(stdout, false) == PrependAll(done, Answers(stdout[i..], parsing))
    {
      var line := RStrip(stdout[i]);
      if parsing {
        if line == [] {
          assert done + [] == done;
          return Ok(done);
        }
        var lineBits := Split(line, ',');
        if |lineBits| < 3 {
          return Err(MissingField);
        }
        var actual, predicted := Split(lineBits[1], ':'), Split(lineBits[2], ':');
        if |actual| < 2 || |predicted| < 2 {
          return Err(MissingClass);
        }
        assert ParseLine(line) == Ok(Answer(actual[1], predicted[1]));
        PrependStep(done, Answer(actual[1], predicted[1]), Answers(stdout[i + 1..], true));
        done := done + [Answer(actual[1], predicted[1])];
      }
      if line == HEADER {
        parsing := true;
      }
      i := i + 1;
    }
    assert done + [] == done;
    return Ok(done);
  }

  lemma PrependStep(done: seq<Answer>, a: Answer, r: Result<seq<Answer>, ParseError>)
    ensures PrependAll(done, Prepend(a, r)) == PrependAll(done + [a], r)
  {
    if r.Ok? {
      assert done + ([a] + r.value) == done + [a] + r.value;
    }
  }

  /** execute: the command line it runs, and the answers read from the
      output the command prints. */
  method Execute(trainingFile: string, testingFile: string, classifier: string, args: seq<string>, stdout: seq<string>)
    returns (command: string, answers: Result<seq<Answer>, ParseError>)
    ensures command == Command(CommandPrefix(trainingFile, testingFile, classifier) + args)
    ensures answers == Answers(stdout, false)
  {
    var myArgs := CommandArgs(trainingFile, testingFile, classifier, args);
    command := Join(myArgs, " ");
    answers := ReadAnswers(stdout);
  }

  // ---------------------------------------------------------------------
  // Properties of the output loop

  /** Without the header line no answer is read. */
  lemma {:induction false} NoHeaderNoAnswers(lines: seq<string>)
    requires forall i :: 0 <= i < |lines| ==> RStrip(lines[i]) != HEADER
    ensures Answers(lines, false) == Ok([])
    decreases |lines|
  {
    if |lines| > 0 {
      assert forall i :: 0 <= i < |lines[1..]| ==> lines[1..][i] == lines[i + 1];
      NoHeaderNoAnswers(lines[1..]);
    }
  }

  /** The lines up to and including the first header yield nothing: the
      answers are those read after it. */
  lemma {:induction false} SkipToHeader(lines: seq<string>, k: nat)
    requires k < |lines| && RStrip(lines[k]) == HEADER
    requires forall i :: 0 <= i < k ==> RStrip(lines[i]) != HEADER
    ensures Answers(lines, false) == Answers(lines[k + 1..], true)
    decreases k
  {
    if k > 0 {
      assert forall i :: 0 <= i < k - 1 ==> lines[1..][i] == lines[i + 1];
      SkipToHeader(lines[1..], k - 1);
      assert lines[1..][k..] == lines[k + 1..];
    }
  }

  /** Reading stops at the first empty line: nothing after it is read. */
  lemma {:induction false} StopAtEmpty(lines: seq<string>, k: nat)
    requires k < |lines| && RStrip(lines[k]) == []
    ensures Answers(lines, true) == Answers(lines[..k], true)
    decreases k
  {
    if k > 0 {
      assert lines[1..][k - 1] == lines[k];
      StopAtEmpty(lines[1..], k - 1);
      assert lines[..k][1..] == lines[1..][..k - 1];
      assert lines[..k][0] == lines[0];
    }
  }

  /** After the header, with no empty line, every line gives one answer, in
      line order, and the answers are what the lines say. */
  lemma {:induction false} AnswersInOrder(lines: seq<string>)
    requires forall i :: 0 <= i < |lines| ==> RStrip(lines[i]) != []
    requires Answers(lines, true).Ok?
    ensures var r := Answers(lines, true).value;
      |r| == |lines| && forall i :: 0 <= i < |lines| ==> ParseLine(RStrip(lines[i])) == Ok(r[i])
    decreases |lines|
  {
    if |lines| > 0 {
      var tail := lines[1..];
      assert forall i :: 0 <= i < |tail| ==> tail[i] == lines[i + 1];
      AnswersInOrder(tail);
    }
  }
}
