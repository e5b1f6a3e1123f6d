/**
 * The error notifier's message: the Discord embed built from a logged
 * error's details, and the guard that sends nothing without a webhook.
 * The details are a dictionary whose values are strings or integers; the
 * current time is a parameter, and the webhook post itself is not modelled.
 */
module Notifier {
  import opened Wrappers
  import opened Text

  /** A value of the error dictionary. */
  datatype Value = Str(s: string) | Int(n: int)

  /** `str(v)` (and `f"{v}"`) for such a value. */
  function Render(v: Value): (r: string)
    ensures v.Str? ==> r == v.s
    ensures v.Int? ==> |r| > 0 && (v.n >= 0 ==> AllDigits(r))
    ensures v.Int? && v.n < 0 ==> r[0] == '-' && AllDigits(r[1..])
  {
    match v
    case Str(s) => s
    case Int(n) => if n < 0 then "-" + NatToString(-n) else NatToString(n)
  }

  type ErrorInfo = map<string, Value>

  /** `info.get(key, default)`. */
  function Get(info: ErrorInfo, key: string, default: Value): (r: Value)
    ensures key in info ==> r == info[key]
    ensures key !in info ==> r == default
  {
    if key in info then info[key] else default
  }

  datatype Field = Field(name: string, value: string, inline: bool)

  datatype Embed = Embed(title: string, color: int, timestamp: Value, fields: seq<Field>)

  const Red := 0xFF0000
  const DarkRed := 0x8B0000
  const Orange := 0xFFA500

  /** `color_map.get(level, 0xFF0000)`: any level the map does not know is red. */
  function LevelColor(level: Value): (r: int)
    ensures r == DarkRed <==> level == Str("CRITICAL")
    ensures r == Orange <==> level == Str("WARNING")
    ensures r == Red <==> level != Str("CRITICAL") && level != Str("WARNING")
  {
    match level
    case Str(s) =>
      if s == "ERROR" then Red
      else if s == "CRITICAL" then DarkRed
      else if s == "WARNING" then Orange
      else Red
    case Int(_) => Red
  }

  const TracebackOpen := "```python\n"
  const TracebackClose := "\n```"

  /** The traceback cut to Discord's field size: over 1000 characters, its first 997 and `"..."`. */
  function ClipTraceback(tb: string): (r: string)
    ensures |r| <= 1000
    ensures |tb| <= 1000 ==> r == tb
    ensures |tb| > 1000 ==> |r| == 1000 && StartsWith(tb, r[..997]) && EndsWith(r, "...")
  {
    var r := Ellipsize(tb, 1000);
    assert |tb| > 1000 ==> r[..997] == tb[..997];
    r
  }

  /** The three fields every error carries, in this order. */
  function BaseFields(info: ErrorInfo): seq<Field> {
    [ Field("📁 Module", "`" + Render(Get(info, "module", Str("Unknown"))) + "`", true),
      Field("🔧 Function", "`" + Render(Get(info, "function", Str("Unknown"))) + "`", true),
      Field("📍 Line", Render(Get(info, "line", Str("Unknown"))), true) ]
  }

  /**
   * `_format_error_embed`: `None` where Python would raise, that is when the
   * traceback is present but not a string (its `len` fails).
   */
  function ErrorEmbed(info: ErrorInfo, now: string): (r: Option<Embed>)
    ensures r.None? <==> "traceback" in info && !info["traceback"].Str?
    ensures r.Some? ==> (|r.value.fields| == 4 <==> "traceback" in info) && 3 <= |r.value.fields| <= 4
    ensures r.Some? ==> r.value.fields[..3] == BaseFields(info)
  {
    var level := Get(info, "level", Str("ERROR"));
    var title := "🚨 " + Render(level) + ": " + Render(Get(info, "message", Str("Unknown Error")));
    var embed := Embed(title, LevelColor(level), Get(info, "timestamp", Str(now)), BaseFields(info));
    if "traceback" !in info then Some(embed)
    else
      match info["traceback"]
      case Str(tb) =>
        var extra := Field("📋 Traceback", TracebackOpen + ClipTraceback(tb) + TracebackClose, false);
        Some(embed.(fields := embed.fields + [extra]))
      case Int(_) => None
  }

  /** The embed's title, colour and timestamp follow the level, the message and the time. */
  lemma ErrorEmbedHeader(info: ErrorInfo, now: string)
    requires ErrorEmbed(info, now).Some?
    ensures var e := ErrorEmbed(info, now).value; var level := Get(info, "level", Str("ERROR"));
      && e.title == "🚨 " + Render(level) + ": " + Render(Get(info, "message", Str("Unknown Error")))
      && e.color == LevelColor(level)
      && ("level" !in info ==> e.color == Red && StartsWith(e.title, "🚨 ERROR: "))
      && e.timestamp == Get(info, "timestamp", Str(now))
  {
    if "level" !in info {
      var e := ErrorEmbed(info, now).value;
      assert e.title[..|"🚨 ERROR: "|] == "🚨 ERROR: ";
    }
  }

  /** No field exceeds Discord's limit of 1024 characters because of the traceback. */
  lemma TracebackFieldFits(info: ErrorInfo, now: string)
    requires ErrorEmbed(info, now).Some? && "traceback" in info
    ensures var f := ErrorEmbed(info, now).value.fields[3];
      && f.name == "📋 Traceback" && !f.inline
      && |f.value| <= 1014
      && StartsWith(f.value, TracebackOpen) && EndsWith(f.value, TracebackClose)
      && (|info["traceback"].s| <= 1000 ==> f.value == TracebackOpen + info["traceback"].s + TracebackClose)
  {
    var f := ErrorEmbed(info, now).value.fields[3];
    var body := ClipTraceback(info["traceback"].s);
    assert f.value == TracebackOpen + body + TracebackClose;
    assert f.value[..|TracebackOpen|] == TracebackOpen;
    assert f.value[|f.value| - |TracebackClose|..] == TracebackClose;
  }

  /**
   * `_format_error_embed` as written: the embed with its three fields, the
   * traceback field appended to the list afterwards.
   */
  method FormatErrorEmbed(info: ErrorInfo, now: string) returns (r: Option<Embed>)
    ensures r == ErrorEmbed(info, now)
  {
    var level := Get(info, "level", Str("ERROR"));
    var color := LevelColor(level);
    var title := "🚨 " + Render(level) + ": " + Render(Get(info, "message", Str("Unknown Error")));
    var fields := BaseFields(info);
    if "traceback" in info {
      if !info["traceback"].Str? {
        return None;
      }
      var text := info["traceback"].s;
      if |text| > 1000 {
        text := text[..997] + "...";
      }
      fields := fields + [Field("📋 Traceback", TracebackOpen + text + TracebackClose, false)];
    }
    r := Some(Embed(title, color, Get(info, "timestamp", Str(now)), fields));
  }

  datatype Payload = Payload(embeds: seq<Embed>, username: string)

  /**
   * What `send_error` posts: nothing without a webhook URL, and nothing when
   * formatting raises (the exception is swallowed and `False` returned);
   * otherwise the one embed under the reporter's name.
   */
  function SendError(webhookUrl: string, info: ErrorInfo, now: string): (r: Option<Payload>)
    ensures webhookUrl == "" ==> r.None?
    ensures r.None? <==> webhookUrl == "" || ErrorEmbed(info, now).None?
    ensures r.Some? ==> r.value.embeds == [ErrorEmbed(info, now).value] && r.value.username == "News Bot Error Reporter"
  {
    if webhookUrl == "" then None
    else
      match ErrorEmbed(info, now)
      case None => None
      case Some(e) => Some(Payload([e], "News Bot Error Reporter"))
  }
}
