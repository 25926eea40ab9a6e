/**
 * The scan of the panel's `.env` file for database credentials: each line is
 * matched by prefix against the five `DB_*` keys, a matching line sets its
 * key to the whitespace-stripped text between its first and second `=`, and
 * a `DB_CONNECTION` line naming a driver other than `mysql` ends the scan.
 * The file is given as the sequence of its lines (each with or without its
 * line terminator, which `strip()` removes anyway).
 */
module EnvScan {
  import opened Wrappers
  import opened PyStr

  /** The five module-level settings the scan fills in. */
  datatype EnvKey = Host | Port | Database | Username | Password

  function KeyName(k: EnvKey): string {
    match k
    case Host => "DB_HOST"
    case Port => "DB_PORT"
    case Database => "DB_DATABASE"
    case Username => "DB_USERNAME"
    case Password => "DB_PASSWORD"
  }

  datatype DbSettings = DbSettings(host: string, port: string, database: string, username: string, password: string)
  {
    function Get(k: EnvKey): string {
      match k
      case Host => host
      case Port => port
      case Database => database
      case Username => username
      case Password => password
    }

    /** Assigning one setting leaves the other four alone. */
    function Set(k: EnvKey, v: string): (s: DbSettings)
      ensures s.Get(k) == v
      ensures forall other :: other != k ==> s.Get(other) == Get(other)
    {
      match k
      case Host => this.(host := v)
      case Port => this.(port := v)
      case Database => this.(database := v)
      case Username => this.(username := v)
      case Password => this.(password := v)
    }
  }

  /** The settings before the scan: every one empty. */
  const Unset := DbSettings("", "", "", "", "")

  /** The key whose branch of the `if`/`elif` chain a line enters. */
  function KeyOf(line: string): Option<EnvKey> {
    if StartsWith(line, "DB_HOST") then Some(Host)
    else if StartsWith(line, "DB_PORT") then Some(Port)
    else if StartsWith(line, "DB_DATABASE") then Some(Database)
    else if StartsWith(line, "DB_USERNAME") then Some(Username)
    else if StartsWith(line, "DB_PASSWORD") then Some(Password)
    else None
  }

  /** No key name is a prefix of another, so the order of the chain does not matter: a line enters the branch of `k` iff it starts with `k`'s name. */
  lemma KeyOfIsPrefixMatch(line: string, k: EnvKey)
    ensures KeyOf(line) == Some(k) <==> StartsWith(line, KeyName(k))
  {
    if StartsWith(line, KeyName(k)) {
      assert line[3] == KeyName(k)[3];
      assert line[4] == KeyName(k)[4];
    }
  }

  /** What one line does to the scan. `BadLine` is a line whose `split("=")[1]` raises `IndexError`. */
  datatype LineEffect = Assign(key: EnvKey, value: string) | NoEffect | StopScan | BadLine

  function Classify(line: string): LineEffect {
    var field := SecondField(line, '=');
    if StartsWith(line, "DB_CONNECTION") && field.None? then BadLine
    else if StartsWith(line, "DB_CONNECTION") && Strip(field.value) != "mysql" then StopScan
    else
      match KeyOf(line)
      case None => NoEffect
      case Some(k) => if field.None? then BadLine else Assign(k, Strip(field.value))
  }

  /** How the scan ends: after the last line, at a `DB_CONNECTION` line that stops it, or with an `IndexError` at a line. */
  datatype ScanOutcome = Finished(settings: DbSettings) | Stopped(settings: DbSettings, at: nat) | Crashed(at: nat)

  /** The scan of `lines`, one line at a time from the first. */
  function Scan(lines: seq<string>): ScanOutcome
    decreases |lines|
  {
    if lines == [] then Finished(Unset)
    else
      var last := |lines| - 1;
      match Scan(lines[..last])
      case Finished(s) =>
        (match Classify(lines[last])
         case Assign(k, v) => Finished(s.Set(k, v))
         case NoEffect => Finished(s)
         case StopScan => Stopped(s, last)
         case BadLine => Crashed(last))
      case other => other
  }

  /** Reference: the value given to `k` by the last line that names it, or the empty string. */
  function LastValue(lines: seq<string>, k: EnvKey): string
    decreases |lines|
  {
    if lines == [] then ""
    else
      var effect := Classify(lines[|lines| - 1]);
      if effect.Assign? && effect.key == k then effect.value
      else LastValue(lines[..|lines| - 1], k)
  }

  /** Once the scan has stopped or failed, later lines are never looked at. */
  lemma {:induction false} ScanSticky(lines: seq<string>, n: nat)
    requires n <= |lines|
    requires !Scan(lines[..n]).Finished?
    ensures Scan(lines) == Scan(lines[..n])
    decreases |lines|
  {
    if n < |lines| {
      var last := |lines| - 1;
      assert lines[..last][..n] == lines[..n];
      ScanSticky(lines[..last], n);
    } else {
      assert lines[..n] == lines;
    }
  }

  /** A scan that reads every line leaves each setting at the value of the last line naming it (empty if none). */
  lemma {:induction false} FinishedHoldsLastValues(lines: seq<string>)
    requires Scan(lines).Finished?
    ensures forall k :: Scan(lines).settings.Get(k) == LastValue(lines, k)
    decreases |lines|
  {
    if lines != [] {
      var last := |lines| - 1;
      var prev := Scan(lines[..last]);
      assert prev.Finished?;
      FinishedHoldsLastValues(lines[..last]);
    }
  }

  /** A `DB_CONNECTION` line naming another driver ends the scan, keeping exactly the values read before it. */
  lemma StopKeepsValuesRead(lines: seq<string>, i: nat)
    requires i < |lines| && Classify(lines[i]) == StopScan
    requires Scan(lines[..i]).Finished?
    ensures Scan(lines) == Stopped(Scan(lines[..i]).settings, i)
    ensures forall k :: Scan(lines).settings.Get(k) == LastValue(lines[..i], k)
  {
    var prefix := lines[..i + 1];
    assert prefix[..i] == lines[..i];
    assert prefix[i] == lines[i];
    assert Scan(prefix) == Stopped(Scan(lines[..i]).settings, i);
    ScanSticky(lines, i + 1);
    FinishedHoldsLastValues(lines[..i]);
  }

  /** A later line naming a key overwrites the value an earlier line gave it. */
  lemma LaterLineOverwrites(lines: seq<string>, line: string, k: EnvKey, v: string)
    requires Scan(lines).Finished?
    requires Classify(line) == Assign(k, v)
    ensures Scan(lines + [line]) == Finished(Scan(lines).settings.Set(k, v))
  {
    assert (lines + [line])[..|lines|] == lines;
  }

  /** The scan reads every line exactly when no line stops it or raises. */
  lemma {:induction false} ScanFinishedIff(lines: seq<string>)
    ensures Scan(lines).Finished? <==>
      forall i :: 0 <= i < |lines| ==> !Classify(lines[i]).StopScan? && !Classify(lines[i]).BadLine?
    decreases |lines|
  {
    if lines != [] {
      var last := |lines| - 1;
      ScanFinishedIff(lines[..last]);
      assert forall i :: 0 <= i < last ==> lines[..last][i] == lines[i];
    }
  }

  /**
   * A `DB_CONNECTION` or `DB_*` line without `=` makes `split("=")[1]` raise
   * `IndexError`: a scan that reaches it crashes there.
   */
  lemma MissingFieldCrashes(lines: seq<string>, i: nat)
    requires i < |lines| && Scan(lines[..i]).Finished?
    requires '=' !in lines[i]
    requires StartsWith(lines[i], "DB_CONNECTION") || KeyOf(lines[i]).Some?
    ensures Scan(lines) == Crashed(i)
  {
    SecondFieldMissing(lines[i], '=');
    var prefix := lines[..i + 1];
    assert prefix[..i] == lines[..i] && prefix[i] == lines[i];
    assert Scan(prefix) == Crashed(i);
    ScanSticky(lines, i + 1);
  }

  /** A line that starts with none of the five key names nor `DB_CONNECTION` leaves the scan as it was. */
  lemma OtherLineNoEffect(line: string)
    requires !StartsWith(line, "DB_CONNECTION")
    requires forall k :: !StartsWith(line, KeyName(k))
    ensures Classify(line) == NoEffect
  {
    if KeyOf(line).Some? {
      KeyOfIsPrefixMatch(line, KeyOf(line).value);
    }
  }

  /** Facts about the key names used below: none holds `=`, and the fourth character tells them apart from `DB_CONNECTION`. */
  lemma KeyNameFacts(k: EnvKey)
    ensures '=' !in KeyName(k)
    ensures |KeyName(k)| > 3 && KeyName(k)[3] != 'C'
  {
    assert forall i :: 0 <= i < |KeyName(k)| ==> KeyName(k)[i] != '=';
  }

  lemma NoSeparatorInConcat(a: string, b: string, sep: char)
    requires sep !in a && sep !in b
    ensures sep !in a + b
  {
    assert forall i :: 0 <= i < |a + b| ==> (a + b)[i] == if i < |a| then a[i] else b[i - |a|];
  }

  /** Classifying a line once its key branch and its second field are known. */
  lemma ClassifyKeyLine(line: string, k: EnvKey, field: string)
    requires StartsWith(line, KeyName(k))
    requires SecondField(line, '=') == Some(field)
    ensures Classify(line) == Assign(k, Strip(field))
  {
    KeyOfIsPrefixMatch(line, k);
    KeyNameFacts(k);
    assert line[3] == KeyName(k)[3];
    assert !StartsWith(line, "DB_CONNECTION");
  }

  /**
   * A key line is read as the text after the first `=`, cut at the next `=`
   * and stripped: `DB_PASSWORD=pa=ss` sets the password to `pa`.
   */
  lemma KeyLineValue(k: EnvKey, tail: string, field: string, rest: string)
    requires '=' !in tail && '=' !in field
    requires rest == [] || rest[0] == '='
    ensures Classify(KeyName(k) + tail + "=" + field + rest) == Assign(k, Strip(field))
  {
    var first := KeyName(k) + tail;
    var line := KeyName(k) + tail + "=" + field + rest;
    assert line == first + ['='] + field + rest;
    assert SecondField(line, '=') == Some(field) by {
      KeyNameFacts(k);
      NoSeparatorInConcat(KeyName(k), tail, '=');
      SecondFieldSpec(first, '=', field, rest);
    }
    assert StartsWith(line, KeyName(k)) by {
      assert line[..|KeyName(k)|] == KeyName(k);
    }
    ClassifyKeyLine(line, k, field);
  }

  /** A `DB_CONNECTION` line lets the scan go on when its value is `mysql` and stops it otherwise. */
  lemma ConnectionLine(tail: string, field: string, rest: string)
    requires '=' !in tail && '=' !in field
    requires rest == [] || rest[0] == '='
    ensures Classify("DB_CONNECTION" + tail + "=" + field + rest) == if Strip(field) == "mysql" then NoEffect else StopScan
  {
    var line := "DB_CONNECTION" + tail + "=" + field + rest;
    var first := "DB_CONNECTION" + tail;
    assert line == first + ['='] + field + rest;
    assert '=' !in "DB_CONNECTION";
    NoSeparatorInConcat("DB_CONNECTION", tail, '=');
    SecondFieldSpec(first, '=', field, rest);
    assert line == "DB_CONNECTION" + (tail + "=" + field + rest);
    assert StartsWith(line, "DB_CONNECTION");
    assert KeyOf(line) == None by {
      assert line[3] == 'C';
    }
  }

  /**
   * The scanning loop of the script: the five settings are variables that
   * each matching line reassigns; a `DB_CONNECTION` line whose value is not
   * `mysql` breaks out of the loop.
   */
  method ScanEnvFile(lines: seq<string>) returns (result: ScanOutcome)
    ensures result == Scan(lines)
  {
    var host, port, database, username, password := "", "", "", "", "";
    var i := 0;
    while i < |lines|
      invariant 0 <= i <= |lines|
      invariant Scan(lines[..i]) == Finished(DbSettings(host, port, database, username, password))
    {
      var line := lines[i];
      assert lines[..i + 1][..i] == lines[..i];
      if StartsWith(line, "DB_CONNECTION") {
        var field := SecondField(line, '=');
        if field.None? {
          ScanSticky(lines, i + 1);
          return Crashed(i);
        }
        if Strip(field.value) != "mysql" {
          break;
        }
      }
      if StartsWith(line, "DB_HOST") {
        var field := SecondField(line, '=');
        if field.None? {
          ScanSticky(lines, i + 1);
          return Crashed(i);
        }
        host := Strip(field.value);
      } else if StartsWith(line, "DB_PORT") {
        var field := SecondField(line, '=');
        if field.None? {
          ScanSticky(lines, i + 1);
          return Crashed(i);
        }
        port := Strip(field.value);
      } else if StartsWith(line, "DB_DATABASE") {
        var field := SecondField(line, '=');
        if field.None? {
          ScanSticky(lines, i + 1);
          return Crashed(i);
        }
        database := Strip(field.value);
      } else if StartsWith(line, "DB_USERNAME") {
        var field := SecondField(line, '=');
        if field.None? {
          ScanSticky(lines, i + 1);
          return Crashed(i);
        }
        username := Strip(field.value);
      } else if StartsWith(line, "DB_PASSWORD") {
        var field := SecondField(line, '=');
        if field.None? {
          ScanSticky(lines, i + 1);
          return Crashed(i);
        }
        password := Strip(field.value);
      }
      i := i + 1;
    }
    var settings := DbSettings(host, port, database, username, password);
    if i < |lines| {
      StopKeepsValuesRead(lines, i);
      result := Stopped(settings, i);
    } else {
      assert lines[..i] == lines;
      result := Finished(settings);
    }
  }
}
