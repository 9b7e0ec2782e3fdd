/**
 * Keeping the system catalog fresh. Before most commands the program
 * looks at `<home>/kaleido.toml`: a missing file is downloaded at once; a
 * file more than seven days old prompts the user, and an answer starting
 * with `y` downloads it again. The new catalog is fetched to
 * `kaleido.toml.tmp`, the old file removed, and the new one renamed into
 * place.
 *
 * The answer test slices the first BYTE of the answer (`answer[0..1]`),
 * which panics when the first character takes more than one byte in
 * UTF-8. `AnswerAsWritten` models that slice; `WantsUpdate` is the
 * evidently intended first-character test, and the command uses it.
 */
module Config {
  import opened Wrappers
  import opened Paths
  import opened FileSystem
  import opened Trace
  import opened Strings
  import Console
  import Http

  const SysFile: string := "kaleido.toml"
  const TmpFile: string := "kaleido.toml.tmp"
  const ConfigUrl: string := "https://raw.githubusercontent.com/jinyuli/sys-kaleido/master/kaleido.toml"

  /** Seven days, in seconds. */
  const SevenDays: nat := 7 * 24 * 60 * 60

  type Nanos = n: nat | n < 1_000_000_000

  /** How long ago the file was modified (Rust's `Duration`). */
  datatype Duration = Duration(secs: nat, nanos: Nanos)

  /** `d > Duration::from_secs(SevenDays)`: strictly longer than seven days, to the nanosecond. */
  function OverAWeek(d: Duration): (b: bool)
    ensures b <==> d.secs * 1_000_000_000 + d.nanos > SevenDays * 1_000_000_000
  {
    d.secs > SevenDays || (d.secs == SevenDays && d.nanos > 0)
  }

  /** The catalog file and its temporary sibling. */
  function ConfigPath(home: Path): Path { home + [Normal(SysFile)] }
  function TmpPath(home: Path): Path { home + [Normal(TmpFile)] }

  /**
   * `!answer.is_empty() && answer[0..1] == "y"` as the program evaluates
   * it: `None` is the panic of slicing inside a multi-byte character.
   */
  function AnswerAsWritten(answer: string): (r: Option<bool>)
    ensures r.None? <==> |answer| > 0 && answer[0] as int >= 0x80
    ensures r.Some? ==> (r.value <==> |answer| > 0 && answer[0] == 'y')
  {
    if |answer| == 0 then Some(false)
    else if Utf8Width(answer[0]) > 1 then None
    else Some(answer[0] == 'y')
  }

  /** The intended test: the answer is not empty and starts with `y`. */
  function WantsUpdate(answer: string): (b: bool)
    ensures b <==> |answer| > 0 && answer[..1] == "y"
  {
    |answer| > 0 && answer[0] == 'y'
  }

  /** As written and as intended agree whenever the program does not panic, and it panics on a non-ASCII first letter. */
  lemma AnswerAgreesUnlessPanic(answer: string)
    ensures AnswerAsWritten(answer).Some? ==> AnswerAsWritten(answer).value == WantsUpdate(answer)
    ensures AnswerAsWritten(answer).None? <==> |answer| > 0 && answer[0] as int >= 0x80
  {
  }

  /** The discrepancy on one input: a reply of "été" at the prompt panics the program. */
  lemma AnswerAsWrittenPanics()
    ensures AnswerAsWritten(Console.Normalise("été")).None?
    ensures !WantsUpdate(Console.Normalise("été"))
  {
    var line := "été";
    var a := KeptFrom(line, IsWhitespace, 0);
    assert !IsWhitespace(line[0]);
    assert a == 0;
    var b := KeptUntil(line, IsWhitespace, a, |line|);
    assert !IsWhitespace(line[2]);
    assert b == 3;
    assert TrimBy(line, IsWhitespace) == line;
    assert Console.Normalise(line)[0] == LowerChar('é') == 'é';
  }

  /** The typed line's first non-blank character is `y` or `Y`. */
  predicate StartsWithYes(line: string) {
    exists i | 0 <= i < |line| :: line[i] in {'y', 'Y'} && forall j | 0 <= j < i :: IsWhitespace(line[j])
  }

  /** The normalised answer starts with the typed line's first non-blank character, lower-cased. */
  lemma NormalisedFirst(line: string)
    ensures var a := KeptFrom(line, IsWhitespace, 0);
      && (|Console.Normalise(line)| > 0 <==> a < |line|)
      && (a < |line| ==> Console.Normalise(line)[0] == LowerChar(line[a]))
  {
    var a := KeptFrom(line, IsWhitespace, 0);
    var b := KeptUntil(line, IsWhitespace, a, |line|);
    assert TrimBy(line, IsWhitespace) == line[a..b];
    if a < |line| {
      assert b > a;
    }
  }

  /** A line starts with yes exactly when its first non-blank character is `y` or `Y`. */
  lemma StartsWithYesAt(line: string)
    ensures var a := KeptFrom(line, IsWhitespace, 0);
      StartsWithYes(line) <==> a < |line| && line[a] in {'y', 'Y'}
  {
    var a := KeptFrom(line, IsWhitespace, 0);
    if StartsWithYes(line) {
      var i :| 0 <= i < |line| && line[i] in {'y', 'Y'} && forall j | 0 <= j < i :: IsWhitespace(line[j]);
      assert !IsWhitespace(line[i]);
      assert i == a;
    }
  }

  /** The intended test on the line as typed: its first non-blank character is `y` or `Y`. */
  lemma WantsUpdateIff(line: string)
    ensures WantsUpdate(Console.Normalise(line)) <==> StartsWithYes(line)
  {
    NormalisedFirst(line);
    StartsWithYesAt(line);
  }

  /** Moves the downloaded file over the old one: remove it when it is a file, then rename. */
  function Replace(fs: Fs, home: Path): (r: Done)
    ensures IsFile(fs, ConfigPath(home)) && RemoveFile(fs, ConfigPath(home)).Err? ==>
      r == Done(fs, [Said(ConfigFailed)])
    ensures forall i | 0 <= i < |r.trace| && r.trace[i].Renamed? ::
      !IsFile(fs, ConfigPath(home)) || (0 < i && r.trace[i - 1] == RemovedFile(ConfigPath(home)))
    ensures |r.trace| > 0 && r.trace[|r.trace| - 1] == Said(ConfigUpdated) ==>
      ConfigPath(home) in r.fs.files && TmpPath(home) !in r.fs.files
    ensures Said(ConfigPrompt) !in r.trace
  {
    var config := ConfigPath(home);
    var tmp := TmpPath(home);
    var removed: Result<Fs, IoError> := if IsFile(fs, config) then RemoveFile(fs, config) else Ok(fs);
    var said: seq<Effect> := if IsFile(fs, config) then [RemovedFile(config)] else [];
    match removed
    case Err(_) => Done(fs, [Said(ConfigFailed)])
    case Ok(fs') =>
      match Rename(fs', tmp, config)
      case Err(_) => Done(fs', said + [Said(ConfigFailed)])
      case Ok(fs'') => Done(fs'', said + [Renamed(tmp, config), Said(ConfigUpdated)])
  }

  /**
   * `update`: download the catalog to the temporary file, then replace the
   * old one. A failed download leaves everything as it was.
   */
  function Update(fs: Fs, home: Path, body: Result<(), string>): (r: Done)
    ensures |r.trace| > 1 && r.trace[0] == Fetched(ConfigUrl, TmpPath(home))
    ensures body.Err? ==> r == Done(fs, [Fetched(ConfigUrl, TmpPath(home)), Said(ConfigFailed)])
    ensures Http.DownloadFile(fs, TmpPath(home), body).1.Err? ==> r.fs == fs
    ensures r.trace[|r.trace| - 1] == Said(ConfigUpdated) ==>
      ConfigPath(home) in r.fs.files && TmpPath(home) !in r.fs.files
    ensures Said(ConfigPrompt) !in r.trace
  {
    var fetched := [Fetched(ConfigUrl, TmpPath(home))];
    var (fs', got) := Http.DownloadFile(fs, TmpPath(home), body);
    if got.Err? then Done(fs', fetched + [Said(ConfigFailed)])
    else
      var replaced := Replace(fs', home);
      Done(replaced.fs, fetched + replaced.trace)
  }

  /**
   * With the download delivered, the home a directory, nothing locked and
   * no directory in the way, the update ends with the new catalog in place
   * and no temporary file left.
   */
  lemma UpdateInstallsCatalog(fs: Fs, home: Path)
    requires home in fs.dirs && home !in fs.links && |home| > 0
    requires TmpPath(home) !in fs.links && ConfigPath(home) !in fs.links
    requires !IsDir(fs, TmpPath(home)) && ConfigPath(home) !in fs.dirs
    requires fs.locked == {}
    ensures var r := Update(fs, home, Ok(()));
      r.trace[|r.trace| - 1] == Said(ConfigUpdated) && ConfigPath(home) in r.fs.files && TmpPath(home) !in r.fs.files
  {
    var tmp := TmpPath(home);
    assert Parent(tmp) == Some(home) by { assert tmp[..|tmp| - 1] == home; }
    assert Parent(ConfigPath(home)) == Some(home) by { assert ConfigPath(home)[..|home|] == home; }
    var created := CreateFile(fs, tmp);
    assert created.Ok?;
  }

  /**
   * `check_config`: what happens to the catalog file given its age (or the
   * failure to learn it) and the line typed at the prompt (or the failure
   * to read one).
   */
  function CheckConfig(fs: Fs, home: Path, age: Result<Duration, string>, answer: Result<string, string>,
                       body: Result<(), string>): (r: Done)
    ensures !IsFile(fs, ConfigPath(home)) ==> r == Update(fs, home, body)
    ensures IsFile(fs, ConfigPath(home)) && age.Err? ==> r == Done(fs, [Said(ConfigFailed)])
    ensures IsFile(fs, ConfigPath(home)) && age.Ok? && !OverAWeek(age.value) ==> r == Done(fs, [])
  {
    if !IsFile(fs, ConfigPath(home)) then Update(fs, home, body)
    else match age
      case Err(_) => Done(fs, [Said(ConfigFailed)])
      case Ok(d) =>
        if !OverAWeek(d) then Done(fs, [])
        else match answer
          case Err(_) => Done(fs, [Said(ConfigPrompt), Said(InputUnavailable)])
          case Ok(line) =>
            if WantsUpdate(Console.Normalise(line)) then
              var u := Update(fs, home, body);
              Done(u.fs, [Said(ConfigPrompt)] + u.trace)
            else Done(fs, [Said(ConfigPrompt)])
  }

  /**
   * The catalog is downloaded exactly when it is missing, or when it is over
   * a week old and the line typed at the prompt starts with `y` or `Y`.
   */
  lemma CheckConfigFetches(fs: Fs, home: Path, age: Result<Duration, string>, answer: Result<string, string>,
                           body: Result<(), string>)
    ensures Fetched(ConfigUrl, TmpPath(home)) in CheckConfig(fs, home, age, answer, body).trace <==>
      || !IsFile(fs, ConfigPath(home))
      || (age.Ok? && OverAWeek(age.value) && answer.Ok? && StartsWithYes(answer.value))
  {
    var r := CheckConfig(fs, home, age, answer, body);
    if !IsFile(fs, ConfigPath(home)) {
      var u := Update(fs, home, body);
      assert r.trace[0] == u.trace[0];
    } else if age.Ok? && OverAWeek(age.value) && answer.Ok? {
      WantsUpdateIff(answer.value);
      if WantsUpdate(Console.Normalise(answer.value)) {
        var u := Update(fs, home, body);
        assert r.trace[1] == u.trace[0];
      }
    }
  }

  /** The prompt is shown exactly when the file is there and over a week old. */
  lemma CheckConfigPrompts(fs: Fs, home: Path, age: Result<Duration, string>, answer: Result<string, string>,
                           body: Result<(), string>)
    ensures Said(ConfigPrompt) in CheckConfig(fs, home, age, answer, body).trace <==>
      IsFile(fs, ConfigPath(home)) && age.Ok? && OverAWeek(age.value)
  {
    var r := CheckConfig(fs, home, age, answer, body);
    if IsFile(fs, ConfigPath(home)) && age.Ok? && OverAWeek(age.value) {
      assert r.trace[0] == Said(ConfigPrompt);
    }
  }
}
