/**
 * The password-reset email: the HTML template has its four placeholders
 * replaced, in a fixed order, and is sent with a fixed subject. Reading the
 * template file, the clock and the SMTP transport are outside the model:
 * the template arrives as an optional string and the year as a number.
 */
module ResetEmail {
  import opened Wrappers
  import opened Text

  /** The message handed to `SendAsync`. */
  datatype Mail = Mail(to: string, subject: string, htmlBody: string)

  /** The `FileNotFoundException` thrown when the template file is missing. */
  datatype MailError = TemplateNotFound(message: string)

  const Subject := "Redefinição de senha – Stargram"
  const MissingTemplate := "Template de e-mail não encontrado."
  const AppName := "Stargram"

  /** `TimeSpan.TicksPerHour` */
  const TicksPerHour := 36_000_000_000

  datatype Placeholder = AppNameHole | ResetUrlHole | ExpiresInHole | YearHole

  /** The marker of each placeholder in the template. */
  function Token(p: Placeholder): (t: string)
    ensures |t| >= 3 && t[0] == '{' && t[1] == '{'
    ensures forall i :: 2 <= i < |t| ==> t[i] != '{'
  {
    match p
    case AppNameHole => "{{APP_NAME}}"
    case ResetUrlHole => "{{RESET_URL}}"
    case ExpiresInHole => "{{EXPIRES_IN}}"
    case YearHole => "{{YEAR}}"
  }

  /** Distinct placeholders already differ in their first letter. */
  lemma TokensDiffer(p: Placeholder, q: Placeholder)
    ensures p != q ==> Token(p)[2] != Token(q)[2]
  {
  }

  /**
   * `(int)expiresIn.TotalHours`: the whole hours of a span given in ticks,
   * truncated toward zero.
   */
  function WholeHours(ticks: int): (h: int)
    ensures ticks >= 0 ==> 0 <= h && h * TicksPerHour <= ticks < (h + 1) * TicksPerHour
    ensures ticks < 0 ==> h <= 0 && (h - 1) * TicksPerHour < ticks <= h * TicksPerHour
  {
    if ticks >= 0 then ticks / TicksPerHour else -((-ticks) / TicksPerHour)
  }

  /** The text put in place of `{{EXPIRES_IN}}`: the whole hours, then " hora". */
  function ExpiresText(ticks: int): (r: string)
    ensures ShowsCount(r, WholeHours(ticks), " hora")
  {
    var r := IntToString(WholeHours(ticks)) + " hora";
    assert r == CountText(WholeHours(ticks), " hora");
    r
  }

  /**
   * The four replacements, each applied to the result of the previous one.
   * A plain template, with no marker in it, is sent as it is.
   */
  function FillTemplate(html: string, resetUrl: string, expiresIn: int, year: nat): (r: string)
    ensures Plain(html) ==> r == html
  {
    PlainUnchanged(html, AppNameHole, AppName);
    PlainUnchanged(html, ResetUrlHole, resetUrl);
    PlainUnchanged(html, ExpiresInHole, ExpiresText(expiresIn));
    PlainUnchanged(html, YearHole, NatToString(year));
    var s1 := Replace(html, Token(AppNameHole), AppName);
    var s2 := Replace(s1, Token(ResetUrlHole), resetUrl);
    var s3 := Replace(s2, Token(ExpiresInHole), ExpiresText(expiresIn));
    Replace(s3, Token(YearHole), NatToString(year))
  }

  /**
   * `SendResetPasswordAsync`: a missing template is an error and nothing is
   * sent; otherwise the filled template goes to `toEmail` with the fixed
   * subject.
   */
  function ResetPasswordMail(template: Option<string>, toEmail: string, resetUrl: string, expiresIn: int, year: nat)
    : (r: Result<Mail, MailError>)
    ensures template.None? <==> r.Failure?
    ensures r.Failure? ==> r.error == TemplateNotFound(MissingTemplate)
    ensures r.Success? ==>
      && r.value.to == toEmail
      && r.value.subject == Subject
      && r.value.htmlBody == FillTemplate(template.value, resetUrl, expiresIn, year)
  {
    match template
    case None => Failure(TemplateNotFound(MissingTemplate))
    case Some(html) => Success(Mail(toEmail, Subject, FillTemplate(html, resetUrl, expiresIn, year)))
  }

  /* ---------------------------------------------------------------------
   * A template as literal text and placeholders
   * ------------------------------------------------------------------- */

  datatype Part = Lit(text: string) | Hole(p: Placeholder)

  /**
   * Text in which no marker can start: no two `{` in a row, and no `{` at
   * the end (where it could pair with a `{` that follows).
   */
  predicate Plain(s: string) {
    && (forall i :: 0 <= i < |s| - 1 ==> s[i] != '{' || s[i + 1] != '{')
    && (|s| == 0 || s[|s| - 1] != '{')
  }

  /** Text without any `{` is plain. */
  lemma BracelessPlain(s: string)
    requires forall i :: 0 <= i < |s| ==> s[i] != '{'
    ensures Plain(s)
  {
  }

  predicate PlainLits(parts: seq<Part>) {
    forall i :: 0 <= i < |parts| ==> parts[i].Lit? ==> Plain(parts[i].text)
  }

  /**
   * The text of a template in which the placeholders in `vals` have been
   * filled in and the others still show their marker.
   */
  function Show(parts: seq<Part>, vals: map<Placeholder, string>): string {
    if |parts| == 0 then ""
    else
      var head := match parts[0]
        case Lit(t) => t
        case Hole(p) => if p in vals then vals[p] else Token(p);
      head + Show(parts[1..], vals)
  }

  /** No `{{…}}` marker starts inside a plain prefix, whatever follows it. */
  lemma NoMarkerInPlain(x: string, y: string, pat: string)
    requires Plain(x)
    requires |pat| >= 2 && pat[0] == '{' && pat[1] == '{'
    ensures forall i :: 0 <= i < |x| ==> !MatchAt(x + y, i, pat)
  {
    forall i | 0 <= i < |x| ensures !MatchAt(x + y, i, pat) {
      assert (x + y)[i] == x[i];
      if x[i] != '{' {
        Mismatch(x + y, i, pat, 0);
      } else {
        assert i < |x| - 1;
        assert (x + y)[i + 1] == x[i + 1];
        Mismatch(x + y, i, pat, 1);
      }
    }
  }

  /** Replacing a `{{…}}` marker skips over a plain prefix. */
  lemma SkipPlain(x: string, y: string, pat: string, rep: string)
    requires Plain(x)
    requires |pat| >= 2 && pat[0] == '{' && pat[1] == '{'
    ensures Replace(x + y, pat, rep) == x + Replace(y, pat, rep)
  {
    NoMarkerInPlain(x, y, pat);
    ReplaceSkip(x, y, pat, rep);
  }

  /** Replacing one marker skips over a different one. */
  lemma SkipOtherToken(q: Placeholder, y: string, p: Placeholder, rep: string)
    requires p != q
    ensures Replace(Token(q) + y, Token(p), rep) == Token(q) + Replace(y, Token(p), rep)
  {
    var t, pat := Token(q), Token(p);
    TokensDiffer(p, q);
    forall i | 0 <= i < |t| ensures !MatchAt(t + y, i, pat) {
      if i == 0 {
        assert (t + y)[2] == t[2];
        Mismatch(t + y, 0, pat, 2);
      } else if i == 1 {
        assert (t + y)[2] == t[2];
        Mismatch(t + y, 1, pat, 1);
      } else {
        assert (t + y)[i] == t[i];
        Mismatch(t + y, i, pat, 0);
      }
    }
    ReplaceSkip(t, y, pat, rep);
  }

  /**
   * One replacement stage fills exactly the placeholder it names, provided
   * the literal text and the values filled in earlier are plain.
   */
  lemma {:induction false} FillStage(parts: seq<Part>, vals: map<Placeholder, string>, p: Placeholder, v: string)
    requires PlainLits(parts)
    requires forall q :: q in vals ==> Plain(vals[q])
    requires p !in vals
    ensures Replace(Show(parts, vals), Token(p), v) == Show(parts, vals[p := v])
    decreases |parts|
  {
    if |parts| > 0 {
      var rest := Show(parts[1..], vals);
      assert PlainLits(parts[1..]) by {
        forall i | 0 <= i < |parts[1..]| ensures parts[1..][i].Lit? ==> Plain(parts[1..][i].text) {
          assert parts[1..][i] == parts[i + 1];
        }
      }
      FillStage(parts[1..], vals, p, v);
      match parts[0]
      case Lit(t) =>
        assert Plain(t) by { assert parts[0].Lit?; }
        SkipPlain(t, rest, Token(p), v);
      case Hole(q) =>
        if q == p {
          ReplaceAtFront(rest, Token(p), v);
        } else if q in vals {
          SkipPlain(vals[q], rest, Token(p), v);
        } else {
          SkipOtherToken(q, rest, p, v);
        }
    } else {
      assert Replace("", Token(p), v) == "";
    }
  }

  /** The fixed values contain no `{`, so they are plain. */
  lemma PlainValues(expiresIn: int, year: nat)
    ensures Plain(AppName) && Plain(ExpiresText(expiresIn)) && Plain(NatToString(year))
  {
    assert Plain(NatToString(year)) by {
      var y := NatToString(year);
      assert forall i :: 0 <= i < |y| ==> IsDigit(y[i]);
      BracelessPlain(y);
    }
    assert Plain(ExpiresText(expiresIn)) by {
      ExpiresBraceless(expiresIn);
      BracelessPlain(ExpiresText(expiresIn));
    }
    BracelessPlain(AppName);
  }

  /** The hours text is a sign, digits and " hora". */
  lemma ExpiresBraceless(expiresIn: int)
    ensures forall i :: 0 <= i < |ExpiresText(expiresIn)| ==> ExpiresText(expiresIn)[i] != '{'
  {
    var d := IntToString(WholeHours(expiresIn));
    IntToStringChars(WholeHours(expiresIn));
    assert ExpiresText(expiresIn) == d + " hora";
  }

  /**
   * For a template whose literal text is plain and a plain reset URL,
   * every placeholder occurrence is replaced by its value and nothing
   * else changes.
   */
  lemma FillTemplateFillsHoles(parts: seq<Part>, resetUrl: string, expiresIn: int, year: nat)
    requires PlainLits(parts)
    requires Plain(resetUrl)
    ensures FillTemplate(Show(parts, map[]), resetUrl, expiresIn, year) ==
      Show(parts, map[AppNameHole := AppName, ResetUrlHole := resetUrl,
                      ExpiresInHole := ExpiresText(expiresIn), YearHole := NatToString(year)])
  {
    PlainValues(expiresIn, year);
    var m0: map<Placeholder, string> := map[];
    var m1 := m0[AppNameHole := AppName];
    var m2 := m1[ResetUrlHole := resetUrl];
    var m3 := m2[ExpiresInHole := ExpiresText(expiresIn)];
    FillStage(parts, m0, AppNameHole, AppName);
    FillStage(parts, m1, ResetUrlHole, resetUrl);
    FillStage(parts, m2, ExpiresInHole, ExpiresText(expiresIn));
    FillStage(parts, m3, YearHole, NatToString(year));
  }

  /** Replacing a marker leaves plain text as it is. */
  lemma PlainUnchanged(html: string, p: Placeholder, v: string)
    ensures Plain(html) ==> Replace(html, Token(p), v) == html
  {
    if Plain(html) {
      assert html + "" == html;
      NoMarkerInPlain(html, "", Token(p));
      ReplaceNoMatch(html, Token(p), v);
    }
  }

  /** A marker alone is left alone by the replacement of another marker. */
  lemma OtherTokenAlone(q: Placeholder, p: Placeholder, rep: string)
    requires p != q
    ensures Replace(Token(q), Token(p), rep) == Token(q)
  {
    assert Replace("", Token(p), rep) == "";
    SkipOtherToken(q, "", p, rep);
    assert Token(q) + "" == Token(q);
  }

  /** A marker alone is replaced by its value. */
  lemma TokenAlone(p: Placeholder, rep: string)
    ensures Replace(Token(p), Token(p), rep) == rep
  {
    assert Replace("", Token(p), rep) == "";
    ReplaceAtFront("", Token(p), rep);
    assert rep + "" == rep;
  }

  /**
   * The replacements are not independent: a reset URL that itself contains
   * a later marker has that marker replaced too.
   */
  lemma LaterMarkerInsideUrl(expiresIn: int)
    ensures FillTemplate(Token(ResetUrlHole), Token(YearHole), expiresIn, 2025) == "2025"
  {
    var url, year, hours := Token(ResetUrlHole), Token(YearHole), ExpiresText(expiresIn);
    var s1 := Replace(url, Token(AppNameHole), AppName);
    OtherTokenAlone(ResetUrlHole, AppNameHole, AppName);
    var s2 := Replace(s1, url, year);
    TokenAlone(ResetUrlHole, year);
    var s3 := Replace(s2, Token(ExpiresInHole), hours);
    OtherTokenAlone(YearHole, ExpiresInHole, hours);
    var digits := NatToString(2025);
    TokenAlone(YearHole, digits);
    assert FillTemplate(url, year, expiresIn, 2025) == Replace(s3, year, digits);
    YearDigits();
  }

  /** The year 2025 is written "2025". */
  lemma YearDigits()
    ensures NatToString(2025) == "2025"
  {
    assert NatToString(2) == "2";
    assert NatToString(20) == "20";
    assert NatToString(202) == "202";
  }
}
