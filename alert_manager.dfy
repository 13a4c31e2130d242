// The alert manager: a key=value configuration, the send decision and the alert text.

module Alerts {
  import opened Wrappers
  import opened Text
  import opened Utils
  import opened FingerprintCommon

  // ---------------------------------------------------------------- data

  /** AlertConfig with the defaults of its member initialisers. */
  datatype AlertConfig = AlertConfig(
    emailEnabled: bool,
    emailSmtpServer: string,
    emailSmtpPort: string,
    emailUsername: string,
    emailPassword: string,
    emailRecipients: seq<string>,
    webhookEnabled: bool,
    webhookUrl: string,
    webhookMethod: string,
    webhookHeaders: map<string, string>,
    consoleEnabled: bool)

  const DefaultConfig := AlertConfig(false, "", "", "", "", [], false, "", "POST", map[], true)

  datatype AlertData = AlertData(
    title: string,
    message: string,
    changedRecords: seq<FingerprintRecord>,
    newRecords: seq<FingerprintRecord>,
    timestamp: string)

  // ---------------------------------------------------------------- configuration lines

  /** The keys a configuration line can set. */
  datatype ConfigKey =
    | EmailEnabled | EmailSmtpServer | EmailSmtpPort | EmailUsername | EmailPassword
    | WebhookEnabled | WebhookUrl

  /** The chain of key comparisons in load_config: the key a trimmed name denotes. */
  function KeyNamed(name: string): Option<ConfigKey>
  {
    if name == "email_enabled" then Some(EmailEnabled)
    else if name == "email_smtp_server" then Some(EmailSmtpServer)
    else if name == "email_smtp_port" then Some(EmailSmtpPort)
    else if name == "email_username" then Some(EmailUsername)
    else if name == "email_password" then Some(EmailPassword)
    else if name == "webhook_enabled" then Some(WebhookEnabled)
    else if name == "webhook_url" then Some(WebhookUrl)
    else None
  }

  /** What one configuration key holds: a switch or a text. */
  datatype Setting = Switch(on: bool) | Value(text: string)

  /** The value of key in a configuration. */
  function SettingOf(c: AlertConfig, key: ConfigKey): Setting
  {
    match key
    case EmailEnabled => Switch(c.emailEnabled)
    case EmailSmtpServer => Value(c.emailSmtpServer)
    case EmailSmtpPort => Value(c.emailSmtpPort)
    case EmailUsername => Value(c.emailUsername)
    case EmailPassword => Value(c.emailPassword)
    case WebhookEnabled => Switch(c.webhookEnabled)
    case WebhookUrl => Value(c.webhookUrl)
  }

  /** A switch is on only for the exact words "true" and "1". */
  predicate IsOn(value: string)
  {
    value == "true" || value == "1"
  }

  /** The setting that the line "key = value" asks for. */
  function Requested(key: ConfigKey, value: string): Setting
  {
    if key == EmailEnabled || key == WebhookEnabled then Switch(IsOn(value)) else Value(value)
  }

  /** The fields no configuration line can set. */
  predicate SameFixedFields(c: AlertConfig, d: AlertConfig)
  {
    c.emailRecipients == d.emailRecipients && c.webhookMethod == d.webhookMethod &&
    c.webhookHeaders == d.webhookHeaders && c.consoleEnabled == d.consoleEnabled
  }

  /** The field assignment load_config makes for one key and its trimmed value. */
  function Assign(c: AlertConfig, key: ConfigKey, value: string): AlertConfig
  {
    match key
    case EmailEnabled => c.(emailEnabled := value == "true" || value == "1")
    case EmailSmtpServer => c.(emailSmtpServer := value)
    case EmailSmtpPort => c.(emailSmtpPort := value)
    case EmailUsername => c.(emailUsername := value)
    case EmailPassword => c.(emailPassword := value)
    case WebhookEnabled => c.(webhookEnabled := value == "true" || value == "1")
    case WebhookUrl => c.(webhookUrl := value)
  }

  /** Assigning one key changes that key as requested and leaves every other key and
      every fixed field alone. */
  lemma AssignSetsOneKey(c: AlertConfig, key: ConfigKey, value: string)
    ensures SameFixedFields(c, Assign(c, key, value))
    ensures forall k ::
      SettingOf(Assign(c, key, value), k) == if k == key then Requested(k, value) else SettingOf(c, k)
  {
  }

  /** The key and value of a line split at its first '=', each trimmed; None without '='. */
  function LineSetting(line: string): (r: Option<(string, string)>)
    ensures r.None? <==> '=' !in line
  {
    match FirstIndexOf(line, '=')
    case None => None
    case Some(i) => Some((Trim(line[..i]), Trim(line[i + 1..])))
  }

  /** The key a line sets and the value it gives, when it names a known key. */
  function LineKey(line: string): Option<(ConfigKey, string)>
  {
    match LineSetting(line)
    case None => None
    case Some(kv) => if KeyNamed(kv.0).Some? then Some((KeyNamed(kv.0).value, kv.1)) else None
  }

  function ApplyConfigLine(c: AlertConfig, line: string): AlertConfig
  {
    match LineKey(line)
    case None => c
    case Some(kv) => Assign(c, kv.0, kv.1)
  }

  /** The configuration after reading lines in order. */
  function ApplyConfigLines(c: AlertConfig, lines: seq<string>): AlertConfig
    decreases |lines|
  {
    if lines == [] then c else ApplyConfigLine(ApplyConfigLines(c, lines[..|lines| - 1]), lines[|lines| - 1])
  }

  /** The value of the last line that names key, if any. */
  function LastValue(lines: seq<string>, key: ConfigKey): Option<string>
    decreases |lines|
  {
    if lines == [] then None
    else
      var s := LineKey(lines[|lines| - 1]);
      if s.Some? && s.value.0 == key then Some(s.value.1) else LastValue(lines[..|lines| - 1], key)
  }

  lemma ConfigStep(c: AlertConfig, lines: seq<string>, i: nat)
    requires i < |lines|
    ensures ApplyConfigLines(c, lines[..i + 1]) == ApplyConfigLine(ApplyConfigLines(c, lines[..i]), lines[i])
  {
    assert lines[..i + 1][..i] == lines[..i];
  }

  /** What key holds after lines: its last line's request, else its value in c. */
  function LastSetting(c: AlertConfig, lines: seq<string>, key: ConfigKey): Setting
  {
    match LastValue(lines, key)
    case None => SettingOf(c, key)
    case Some(v) => Requested(key, v)
  }

  /** Reading lines never changes the fields no line can set. */
  lemma {:induction false} ConfigFixedFields(c: AlertConfig, lines: seq<string>)
    ensures SameFixedFields(c, ApplyConfigLines(c, lines))
    decreases |lines|
  {
    if lines != [] {
      ConfigFixedFields(c, lines[..|lines| - 1]);
      var kv := LineKey(lines[|lines| - 1]);
      if kv.Some? {
        AssignSetsOneKey(ApplyConfigLines(c, lines[..|lines| - 1]), kv.value.0, kv.value.1);
      }
    }
  }

  /** After reading lines, key holds what its last line asked for, or its earlier value
      when no line names it. */
  lemma {:induction false} ConfigLastWins(c: AlertConfig, lines: seq<string>, key: ConfigKey)
    ensures SettingOf(ApplyConfigLines(c, lines), key) == LastSetting(c, lines, key)
    decreases |lines|
  {
    if lines != [] {
      var prefix := lines[..|lines| - 1];
      ConfigLastWins(c, prefix, key);
      var kv := LineKey(lines[|lines| - 1]);
      if kv.Some? {
        AssignSetsOneKey(ApplyConfigLines(c, prefix), kv.value.0, kv.value.1);
      }
    }
  }

  /** Lines without '=' and lines naming an unknown key change nothing. */
  lemma ConfigLineIgnored(c: AlertConfig, line: string)
    requires '=' !in line || KeyNamed(LineSetting(line).value.0).None?
    ensures ApplyConfigLine(c, line) == c
  {
  }

  /** The names the chain recognises are exactly the configuration's key names. */
  lemma KeyNamedNames(name: string)
    ensures KeyNamed(name).Some? <==> name in {"email_enabled", "email_smtp_server",
      "email_smtp_port", "email_username", "email_password", "webhook_enabled", "webhook_url"}
  {
  }

  // ---------------------------------------------------------------- the alert text

  /** One "  - type host:port -> fingerprint" line. */
  function RecordLine(r: FingerprintRecord): string
  {
    "  - " + r.kind + " " + r.host + ":" + IntToString(r.port) + " -> " + r.fingerprint
  }

  function AlertLines(rs: seq<FingerprintRecord>): (ls: seq<string>)
    ensures |ls| == |rs|
    decreases |rs|
  {
    if rs == [] then [] else AlertLines(rs[..|rs| - 1]) + [RecordLine(rs[|rs| - 1])]
  }

  lemma {:induction false} AlertLinesAt(rs: seq<FingerprintRecord>, i: nat)
    requires i < |rs|
    ensures AlertLines(rs)[i] == RecordLine(rs[i])
    decreases |rs|
  {
    if i < |rs| - 1 {
      AlertLinesAt(rs[..|rs| - 1], i);
    }
  }

  /** A "<name> FINGERPRINTS (n):" heading, a line per record and an empty line; nothing
      at all for no records. */
  function Section(name: string, rs: seq<FingerprintRecord>): seq<string>
  {
    if rs == [] then [] else [name + " FINGERPRINTS (" + Decimal(|rs|) + "):"] + AlertLines(rs) + [""]
  }

  /** The lines of the alert text: title, timestamp, message and the two sections. */
  function MessageLines(d: AlertData): seq<string>
  {
    HeadLines(d) + Section("CHANGED", d.changedRecords) + Section("NEW", d.newRecords)
  }

  /** The lines before the sections: title, timestamp and the message when there is one. */
  function HeadLines(d: AlertData): seq<string>
  {
    [d.title, "", "Timestamp: " + d.timestamp, ""] + (if d.message == "" then [] else [d.message, ""])
  }

  function SectionSize(n: nat): nat
  {
    if n == 0 then 0 else n + 2
  }

  /** A section is empty for no records; otherwise its heading counts the records, one
      line per record follows in order, and an empty line closes it. */
  lemma SectionLayout(name: string, rs: seq<FingerprintRecord>)
    ensures |Section(name, rs)| == SectionSize(|rs|)
    ensures rs != [] ==> Section(name, rs)[0] == name + " FINGERPRINTS (" + Decimal(|rs|) + "):"
    ensures forall i :: 0 <= i < |rs| ==> Section(name, rs)[i + 1] == RecordLine(rs[i])
    ensures rs != [] ==> Section(name, rs)[|rs| + 1] == ""
  {
    forall i | 0 <= i < |rs|
      ensures Section(name, rs)[i + 1] == RecordLine(rs[i])
    {
      AlertLinesAt(rs, i);
    }
  }

  /** Where everything sits in the alert text: the title block, the message when there
      is one, then the CHANGED section and the NEW section. */
  lemma MessageLayout(d: AlertData)
    ensures var h := if d.message == "" then 4 else 6;
      var g := h + SectionSize(|d.changedRecords|);
      var lines := MessageLines(d);
      |lines| == g + SectionSize(|d.newRecords|) &&
      lines[..4] == [d.title, "", "Timestamp: " + d.timestamp, ""] &&
      (d.message != "" ==> lines[4] == d.message && lines[5] == "") &&
      lines[h..g] == Section("CHANGED", d.changedRecords) &&
      lines[g..] == Section("NEW", d.newRecords)
  {
    SectionLayout("CHANGED", d.changedRecords);
    SectionLayout("NEW", d.newRecords);
  }

  /** No field of the record holds a line break. */
  predicate OneLineRecord(r: FingerprintRecord)
  {
    '\n' !in r.kind && '\n' !in r.host && '\n' !in r.fingerprint
  }

  lemma RecordLineOneLine(r: FingerprintRecord)
    requires OneLineRecord(r)
    ensures '\n' !in RecordLine(r)
  {
    var p := IntToString(r.port);
    assert forall k :: 0 <= k < |p| ==> p[k] != '\n';
  }

  lemma {:induction false} AlertLinesOneLine(rs: seq<FingerprintRecord>)
    requires forall i :: 0 <= i < |rs| ==> OneLineRecord(rs[i])
    ensures NoNewline(AlertLines(rs))
    decreases |rs|
  {
    if rs != [] {
      AlertLinesOneLine(rs[..|rs| - 1]);
      RecordLineOneLine(rs[|rs| - 1]);
    }
  }

  lemma NoNewlineJoin(a: seq<string>, b: seq<string>)
    requires NoNewline(a) && NoNewline(b)
    ensures NoNewline(a + b)
  {
    forall k | 0 <= k < |a + b|
      ensures '\n' !in (a + b)[k]
    {
      if k < |a| {
        assert (a + b)[k] == a[k];
      } else {
        assert (a + b)[k] == b[k - |a|];
      }
    }
  }

  lemma SectionOneLine(name: string, rs: seq<FingerprintRecord>)
    requires '\n' !in name
    requires forall i :: 0 <= i < |rs| ==> OneLineRecord(rs[i])
    ensures NoNewline(Section(name, rs))
  {
    if rs != [] {
      AlertLinesOneLine(rs);
      var count := Decimal(|rs|);
      assert forall k :: 0 <= k < |count| ==> count[k] != '\n';
      var heading := name + " FINGERPRINTS (" + count + "):";
      assert '\n' !in heading;
      NoNewlineJoin([heading], AlertLines(rs));
      NoNewlineJoin([heading] + AlertLines(rs), [""]);
    }
  }

  /** An alert whose fields hold no line break reads back, line by line, as its lines. */
  lemma MessageReadsBack(d: AlertData)
    requires '\n' !in d.title && '\n' !in d.message && '\n' !in d.timestamp
    requires forall i :: 0 <= i < |d.changedRecords| ==> OneLineRecord(d.changedRecords[i])
    requires forall i :: 0 <= i < |d.newRecords| ==> OneLineRecord(d.newRecords[i])
    ensures Lines(Unlines(MessageLines(d))) == MessageLines(d)
  {
    var head := [d.title, "", "Timestamp: " + d.timestamp, ""];
    var body := if d.message == "" then [] else [d.message, ""];
    assert NoNewline(head);
    SectionOneLine("CHANGED", d.changedRecords);
    SectionOneLine("NEW", d.newRecords);
    NoNewlineJoin(head, body);
    NoNewlineJoin(head + body, Section("CHANGED", d.changedRecords));
    NoNewlineJoin(head + body + Section("CHANGED", d.changedRecords), Section("NEW", d.newRecords));
    LinesOfUnlines(MessageLines(d));
  }

  /** One more record line in a section's text. */
  lemma AlertLinesStep(done: seq<string>, rs: seq<FingerprintRecord>, i: nat)
    requires i < |rs|
    ensures Unlines(done + AlertLines(rs[..i + 1])) == Unlines(done + AlertLines(rs[..i])) + RecordLine(rs[i]) + "\n"
  {
    assert rs[..i + 1][..i] == rs[..i];
    assert done + AlertLines(rs[..i + 1]) == (done + AlertLines(rs[..i])) + [RecordLine(rs[i])];
    UnlinesSnoc(done + AlertLines(rs[..i]), RecordLine(rs[i]));
  }

  /** The heading, the record lines and the closing empty line make up the section. */
  lemma SectionText(lines: seq<string>, name: string, rs: seq<FingerprintRecord>)
    requires rs != []
    ensures Unlines(lines + [name + " FINGERPRINTS (" + Decimal(|rs|) + "):"] + AlertLines(rs)) + "\n" ==
      Unlines(lines + Section(name, rs))
  {
    var heading := name + " FINGERPRINTS (" + Decimal(|rs|) + "):";
    UnlinesSnoc(lines + [heading] + AlertLines(rs), "");
    Regroup(lines, [heading], AlertLines(rs), [""]);
  }

  lemma Regroup<T>(a: seq<T>, b: seq<T>, c: seq<T>, d: seq<T>)
    ensures a + b + c + d == a + (b + c + d)
  {
  }

  /** Appending a line and its "\n" to a text of lines. */
  lemma UnlinesSnoc(ls: seq<string>, x: string)
    ensures Unlines(ls + [x]) == Unlines(ls) + x + "\n"
  {
    assert (ls + [x])[..|ls|] == ls;
  }

  /** Appending "x\n\n" to a text of lines: the line x and an empty line. */
  lemma UnlinesPair(ls: seq<string>, x: string)
    ensures Unlines(ls + [x, ""]) == Unlines(ls) + x + "\n\n"
  {
    UnlinesSnoc(ls, x);
    assert ls + [x, ""] == (ls + [x]) + [""];
    UnlinesSnoc(ls + [x], "");
  }

  // ---------------------------------------------------------------- the manager

  class AlertManager {
    var config: AlertConfig

    /** A manager with the default configuration, console output on. */
    constructor()
      ensures config == DefaultConfig
    {
      config := DefaultConfig;
    }

    /** load_config: false, with nothing changed, when the file cannot be opened;
        otherwise true, with every line of the file applied in order. */
    method LoadConfig(fs: FileSystem, path: string) returns (ok: bool)
      modifies this
      ensures ok <==> path in fs
      ensures config == if ok then ApplyConfigLines(old(config), Lines(fs[path])) else old(config)
    {
      if path !in fs {
        return false;
      }
      ReadSettings(Lines(fs[path]));
      return true;
    }

    /** The getline loop of load_config: each line applied to the configuration in turn. */
    method ReadSettings(lines: seq<string>)
      modifies this
      ensures config == ApplyConfigLines(old(config), lines)
    {
      var i := 0;
      while i < |lines|
        invariant i <= |lines|
        invariant config == ApplyConfigLines(old(config), lines[..i])
      {
        var line := lines[i];
        ConfigStep(old(config), lines, i);
        var setting := LineSetting(line);
        if setting.Some? {
          var (key, value) := setting.value;
          var named := KeyNamed(key);
          if named.Some? {
            SetField(named.value, value);
          }
        }
        i := i + 1;
      }
      assert lines[..i] == lines;
    }

    /** The assignment of one configuration field from its trimmed value. */
    method SetField(key: ConfigKey, value: string)
      modifies this
      ensures config == Assign(old(config), key, value)
    {
      match key
      case EmailEnabled => config := config.(emailEnabled := value == "true" || value == "1");
      case EmailSmtpServer => config := config.(emailSmtpServer := value);
      case EmailSmtpPort => config := config.(emailSmtpPort := value);
      case EmailUsername => config := config.(emailUsername := value);
      case EmailPassword => config := config.(emailPassword := value);
      case WebhookEnabled => config := config.(webhookEnabled := value == "true" || value == "1");
      case WebhookUrl => config := config.(webhookUrl := value);
    }

    method SetConfig(c: AlertConfig)
      modifies this
      ensures config == c
    {
      config := c;
    }

    /** send_email_alert: the SMTP path is a placeholder that always reports failure. */
    method SendEmailAlert(data: AlertData) returns (sent: bool)
      ensures !sent
    {
      sent := false;
    }

    /** send_alert, given whether the webhook request went through: true only when email
        is off (its sending always fails) and the webhook is off or delivered. */
    method SendAlert(data: AlertData, webhookDelivered: bool) returns (success: bool)
      ensures success <==> !config.emailEnabled && (!config.webhookEnabled || webhookDelivered)
    {
      success := true;
      if config.emailEnabled {
        var sent := SendEmailAlert(data);
        if !sent {
          success := false;
        }
      }
      if config.webhookEnabled {
        if !webhookDelivered {
          success := false;
        }
      }
    }

    /** generate_alert_message: the text holding the alert's lines, each ended by '\n'. */
    method GenerateAlertMessage(data: AlertData) returns (msg: string)
      ensures msg == Unlines(MessageLines(data))
    {
      ghost var lines: seq<string> := [];
      msg := "";
      UnlinesPair(lines, data.title);
      msg := msg + data.title + "\n\n";
      lines := lines + [data.title, ""];
      UnlinesPair(lines, "Timestamp: " + data.timestamp);
      msg := msg + ("Timestamp: " + data.timestamp) + "\n\n";
      lines := lines + ["Timestamp: " + data.timestamp, ""];
      if data.message != "" {
        UnlinesPair(lines, data.message);
        msg := msg + data.message + "\n\n";
        lines := lines + [data.message, ""];
      }
      assert lines == HeadLines(data);
      msg := AppendSection(msg, lines, "CHANGED", data.changedRecords);
      lines := lines + Section("CHANGED", data.changedRecords);
      msg := AppendSection(msg, lines, "NEW", data.newRecords);
    }

    /** Appends one section to a text of lines. */
    method AppendSection(text: string, ghost lines: seq<string>, name: string, rs: seq<FingerprintRecord>)
      returns (r: string)
      requires text == Unlines(lines)
      ensures r == Unlines(lines + Section(name, rs))
    {
      r := text;
      if rs == [] {
        assert lines + Section(name, rs) == lines;
        return;
      }
      var heading := name + " FINGERPRINTS (" + Decimal(|rs|) + "):";
      UnlinesSnoc(lines, heading);
      r := r + heading + "\n";
      ghost var done := lines + [heading];
      var i := 0;
      assert done + AlertLines(rs[..i]) == done;
      while i < |rs|
        invariant i <= |rs|
        invariant r == Unlines(done + AlertLines(rs[..i]))
      {
        AlertLinesStep(done, rs, i);
        r := r + RecordLine(rs[i]) + "\n";
        i := i + 1;
      }
      assert rs[..i] == rs;
      SectionText(lines, name, rs);
      r := r + "\n";
    }
  }
}
