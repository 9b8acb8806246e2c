/** The iCalendar export of `CP_Event_Calendar_Enhancements`: `escape_ical`, the fixed
    VCALENDAR/VEVENT layout `generate_ical` writes (sections 3.4 and 3.6.1 of RFC 5545),
    and the `handle_ical_export` request that feeds it. */
module Ical {
  import opened Wrappers
  import opened Php
  import opened Posts
  import Host

  const CR: char := '\r'
  const LF: char := '\n'
  const CRLF: string := "\r\n"

  // ------------------------------------------------------------- escaping

  /** `str_replace($pat, $rep, $s)` for one non-empty pattern: left to right, matches do
      not overlap, and replaced text is not searched again. */
  function ReplaceAll(s: string, pat: string, rep: string): string
    requires |pat| > 0
    decreases |s|
  {
    if |s| < |pat| then s
    else if s[..|pat|] == pat then rep + ReplaceAll(s[|pat|..], pat, rep)
    else [s[0]] + ReplaceAll(s[1..], pat, rep)
  }

  /** `escape_ical($text)` as written: three newline passes, then the comma and the
      semicolon passes, each `str_replace` over the previous one's output. */
  function EscapeIcal(text: string): string {
    var t1 := ReplaceAll(text, CRLF, "\\n");
    var t2 := ReplaceAll(t1, [LF], "\\n");
    var t3 := ReplaceAll(t2, [CR], "\\n");
    var t4 := ReplaceAll(t3, ",", "\\,");
    ReplaceAll(t4, ";", "\\;")
  }

  /** What one character turns into under `escape_ical`. */
  function EscapeChar(c: char): string {
    if c == CR || c == LF then "\\n"
    else if c == ',' then "\\,"
    else if c == ';' then "\\;"
    else [c]
  }

  /** The one-pass reading of `escape_ical`: a CRLF pair and each lone CR or LF become the
      two characters `\n`, and ',' and ';' gain a backslash. */
  function EscapeOnePass(s: string): string
    decreases |s|
  {
    if s == [] then []
    else if |s| >= 2 && s[0] == CR && s[1] == LF then "\\n" + EscapeOnePass(s[2..])
    else EscapeChar(s[0]) + EscapeOnePass(s[1..])
  }

  /** A one-character replacement pass distributes over concatenation. */
  lemma {:induction false} ReplaceCharConcat(a: string, b: string, c: char, rep: string)
    ensures ReplaceAll(a + b, [c], rep) == ReplaceAll(a, [c], rep) + ReplaceAll(b, [c], rep)
    decreases |a|
  {
    if a == [] {
      assert a + b == b;
    } else {
      assert (a + b)[1..] == a[1..] + b;
      assert (a + b)[..1] == a[..1];
      ReplaceCharConcat(a[1..], b, c, rep);
    }
  }

  lemma ReplaceCharSingle(x: char, c: char, rep: string)
    ensures ReplaceAll([x], [c], rep) == if x == c then rep else [x]
  {
    assert [x][..1] == [x] && [x][1..] == [];
  }

  lemma ReplaceCharPair(x: char, y: char, c: char, rep: string)
    requires x != c && y != c
    ensures ReplaceAll([x, y], [c], rep) == [x, y]
  {
    ReplaceCharConcat([x], [y], c, rep);
    ReplaceCharSingle(x, c, rep);
    ReplaceCharSingle(y, c, rep);
    assert [x] + [y] == [x, y];
  }

  /** The four one-character passes that follow the CRLF pass. */
  function LaterPasses(t: string): string {
    ReplaceAll(ReplaceAll(ReplaceAll(ReplaceAll(t, [LF], "\\n"), [CR], "\\n"), ",", "\\,"), ";", "\\;")
  }

  lemma LaterPassesConcat(a: string, b: string)
    ensures LaterPasses(a + b) == LaterPasses(a) + LaterPasses(b)
  {
    var a1, b1 := ReplaceAll(a, [LF], "\\n"), ReplaceAll(b, [LF], "\\n");
    ReplaceCharConcat(a, b, LF, "\\n");
    var a2, b2 := ReplaceAll(a1, [CR], "\\n"), ReplaceAll(b1, [CR], "\\n");
    ReplaceCharConcat(a1, b1, CR, "\\n");
    var a3, b3 := ReplaceAll(a2, ",", "\\,"), ReplaceAll(b2, ",", "\\,");
    ReplaceCharConcat(a2, b2, ',', "\\,");
    ReplaceCharConcat(a3, b3, ';', "\\;");
  }

  /** The `\n` the CRLF pass writes holds none of the later patterns. */
  lemma LaterPassesOfNewline()
    ensures LaterPasses("\\n") == "\\n"
  {
    ReplaceCharPair('\\', 'n', LF, "\\n");
    ReplaceCharPair('\\', 'n', CR, "\\n");
    ReplaceCharPair('\\', 'n', ',', "\\,");
    ReplaceCharPair('\\', 'n', ';', "\\;");
  }

  /** On one character the four passes do what `EscapeChar` says. */
  lemma LaterPassesChar(c: char)
    ensures LaterPasses([c]) == EscapeChar(c)
  {
    ReplaceCharSingle(c, LF, "\\n");
    if c == LF {
      ReplaceCharPair('\\', 'n', CR, "\\n");
      ReplaceCharPair('\\', 'n', ',', "\\,");
      ReplaceCharPair('\\', 'n', ';', "\\;");
    } else if c == CR {
      ReplaceCharSingle(c, CR, "\\n");
      ReplaceCharPair('\\', 'n', ',', "\\,");
      ReplaceCharPair('\\', 'n', ';', "\\;");
    } else {
      ReplaceCharSingle(c, CR, "\\n");
      ReplaceCharSingle(c, ',', "\\,");
      if c == ',' {
        ReplaceCharPair('\\', ',', ';', "\\;");
      } else {
        ReplaceCharSingle(c, ';', "\\;");
      }
    }
  }

  /** The five passes of `escape_ical` amount to one left-to-right pass. */
  lemma {:induction false} EscapeIcalIsOnePass(s: string)
    ensures EscapeIcal(s) == EscapeOnePass(s)
    decreases |s|
  {
    var t1 := ReplaceAll(s, CRLF, "\\n");
    assert EscapeIcal(s) == LaterPasses(t1);
    if s == [] {
    } else if |s| >= 2 && s[0] == CR && s[1] == LF {
      assert s[..2] == CRLF;
      assert t1 == "\\n" + ReplaceAll(s[2..], CRLF, "\\n");
      LaterPassesConcat("\\n", ReplaceAll(s[2..], CRLF, "\\n"));
      LaterPassesOfNewline();
      EscapeIcalIsOnePass(s[2..]);
    } else {
      if |s| >= 2 {
        assert s[..2] != CRLF by {
          assert s[..2][0] == s[0] && s[..2][1] == s[1];
        }
        assert t1 == [s[0]] + ReplaceAll(s[1..], CRLF, "\\n");
      } else {
        assert t1 == s == [s[0]] + s[1..];
        assert ReplaceAll(s[1..], CRLF, "\\n") == s[1..];
      }
      LaterPassesConcat([s[0]], ReplaceAll(s[1..], CRLF, "\\n"));
      LaterPassesChar(s[0]);
      EscapeIcalIsOnePass(s[1..]);
    }
  }

  /** What `escape_ical` promises: no CR or LF is left, so the text fits on one content line. */
  lemma {:induction false} EscapeIcalNoLineBreaks(s: string)
    ensures CR !in EscapeIcal(s) && LF !in EscapeIcal(s)
  {
    EscapeIcalIsOnePass(s);
    OnePassNoLineBreaks(s);
  }

  lemma {:induction false} OnePassNoLineBreaks(s: string)
    ensures CR !in EscapeOnePass(s) && LF !in EscapeOnePass(s)
    decreases |s|
  {
    if s != [] {
      if |s| >= 2 && s[0] == CR && s[1] == LF {
        OnePassNoLineBreaks(s[2..]);
      } else {
        OnePassNoLineBreaks(s[1..]);
      }
    }
  }

  /** The three line-break forms each become one `\n`: a CRLF pair is not doubled, while
      LF followed by CR is two breaks. */
  lemma EscapeIcalLineBreaks()
    ensures EscapeIcal("\r\n") == "\\n"
    ensures EscapeIcal("\n") == "\\n" && EscapeIcal("\r") == "\\n"
    ensures EscapeIcal("\n\r") == "\\n\\n"
  {
    EscapeIcalIsOnePass("\r\n");
    EscapeIcalIsOnePass("\n");
    EscapeIcalIsOnePass("\r");
    EscapeIcalIsOnePass("\n\r");
    assert EscapeOnePass("\n\r") == "\\n" + EscapeOnePass("\r");
  }

  /** The two separators gain a backslash and other characters pass unchanged. */
  lemma EscapeIcalSeparators()
    ensures EscapeIcal("a,b;c") == "a\\,b\\;c"
  {
    EscapeIcalIsOnePass("a,b;c");
    assert EscapeOnePass("c") == "c";
    assert EscapeOnePass(";c") == "\\;" + "c";
    assert EscapeOnePass("b;c") == "b" + "\\;c";
    assert EscapeOnePass(",b;c") == "\\," + "b\\;c";
    assert EscapeOnePass("a,b;c") == "a" + "\\,b\\;c";
  }

  /** A backslash passes through unescaped, unlike section 3.3.11 of RFC 5545. */
  lemma EscapeIcalKeepsBackslash()
    ensures EscapeIcal("\\") == "\\"
  {
    EscapeIcalIsOnePass("\\");
  }

  /** Section 3.3.11 of RFC 5545, read back: `\\`, `;`, `\,` stand for the character after
      the backslash and `\n` or `\N` for a line break; any other character stands for itself. */
  function Unescape(s: string): string
    decreases |s|
  {
    if s == [] then []
    else if s[0] == '\\' && |s| >= 2 then
      (if s[1] == 'n' || s[1] == 'N' then [LF] else [s[1]]) + Unescape(s[2..])
    else [s[0]] + Unescape(s[1..])
  }

  /** Because `escape_ical` leaves a backslash alone, a text holding a backslash and an `n`
      reads back as a line break: the text is not what a client shows. */
  lemma EscapeIcalLosesBackslash()
    ensures EscapeIcal("\\n") == "\\n"
    ensures Unescape(EscapeIcal("\\n")) == "\n" && "\n" != "\\n"
  {
    EscapeIcalIsOnePass("\\n");
    assert EscapeOnePass("\\n") == "\\" + EscapeOnePass("n");
    assert Unescape("\\n") == [LF] + Unescape("");
  }

  /** The escaping section 3.3.11 of RFC 5545 asks for: as `escape_ical`, and a backslash
      doubled as well. */
  function EscapeText(s: string): (r: string)
    ensures CR !in r && LF !in r
    decreases |s|
  {
    if s == [] then []
    else if |s| >= 2 && s[0] == CR && s[1] == LF then "\\n" + EscapeText(s[2..])
    else (if s[0] == '\\' then "\\\\" else EscapeChar(s[0])) + EscapeText(s[1..])
  }

  /** The line breaks a client reads from a text: CRLF and a lone CR both read as LF. */
  function Newlines(s: string): string
    decreases |s|
  {
    if s == [] then []
    else if |s| >= 2 && s[0] == CR && s[1] == LF then [LF] + Newlines(s[2..])
    else (if s[0] == CR then [LF] else [s[0]]) + Newlines(s[1..])
  }

  lemma UnescapePair(p: char, rest: string)
    ensures Unescape(['\\', p] + rest) == (if p == 'n' || p == 'N' then [LF] else [p]) + Unescape(rest)
  {
    assert (['\\', p] + rest)[2..] == rest;
  }

  lemma UnescapePlain(c: char, rest: string)
    requires c != '\\'
    ensures Unescape([c] + rest) == [c] + Unescape(rest)
  {
    assert ([c] + rest)[1..] == rest;
  }

  /** Reading the corrected escaping back gives the text with its line breaks as LF. */
  lemma {:induction false} UnescapeEscapeText(s: string)
    ensures Unescape(EscapeText(s)) == Newlines(s)
    decreases |s|
  {
    if s == [] {
    } else if |s| >= 2 && s[0] == CR && s[1] == LF {
      UnescapeEscapeText(s[2..]);
      UnescapePair('n', EscapeText(s[2..]));
    } else {
      UnescapeEscapeText(s[1..]);
      var c := s[0];
      if c == '\\' {
        UnescapePair('\\', EscapeText(s[1..]));
      } else if c == CR || c == LF {
        UnescapePair('n', EscapeText(s[1..]));
      } else if c == ',' || c == ';' {
        UnescapePair(c, EscapeText(s[1..]));
      } else {
        UnescapePlain(c, EscapeText(s[1..]));
      }
    }
  }

  /** A text without CR has only LF line breaks already. */
  lemma {:induction false} NewlinesWithoutCr(s: string)
    requires CR !in s
    ensures Newlines(s) == s
    decreases |s|
  {
    if s != [] {
      assert CR !in s[1..];
      NewlinesWithoutCr(s[1..]);
      assert s == [s[0]] + s[1..];
    }
  }

  /** Reading the corrected escaping back gives the text, up to the spelling of its line
      breaks; a text without CR comes back exactly. */
  lemma EscapeTextRoundTrip(s: string)
    ensures Unescape(EscapeText(s)) == Newlines(s)
    ensures CR !in s ==> Unescape(EscapeText(s)) == s
  {
    UnescapeEscapeText(s);
    if CR !in s {
      NewlinesWithoutCr(s);
    }
  }

  // ------------------------------------------------------------- layout

  /** The calendar and event opening lines `generate_ical` writes before the fields. */
  const Header: seq<string> :=
    ["BEGIN:VCALENDAR", "VERSION:2.0", "PRODID:-//CampaignPress//Event Calendar//EN", "BEGIN:VEVENT"]

  /** The closing lines after the fields. */
  const Footer: seq<string> := ["END:VEVENT", "END:VCALENDAR"]

  /** The eight property lines of the event, in the order `generate_ical` writes them. */
  function FieldLines(uid: string, stamp: string, start: string, end: string,
                      summary: string, description: string, location: string, url: string): seq<string> {
    ["UID:" + uid, "DTSTAMP:" + stamp, "DTSTART:" + start, "DTEND:" + end,
     "SUMMARY:" + summary, "DESCRIPTION:" + description, "LOCATION:" + location, "URL:" + url]
  }

  /** The content lines `generate_ical` writes, in order. */
  function IcalLines(uid: string, stamp: string, start: string, end: string,
                     summary: string, description: string, location: string, url: string): (lines: seq<string>)
    ensures |lines| == 14
    ensures lines[0] == "BEGIN:VCALENDAR" && lines[3] == "BEGIN:VEVENT"
    ensures lines[12] == "END:VEVENT" && lines[13] == "END:VCALENDAR"
  {
    ["BEGIN:VCALENDAR", "VERSION:2.0", "PRODID:-//CampaignPress//Event Calendar//EN", "BEGIN:VEVENT",
     "UID:" + uid, "DTSTAMP:" + stamp, "DTSTART:" + start, "DTEND:" + end,
     "SUMMARY:" + summary, "DESCRIPTION:" + description, "LOCATION:" + location, "URL:" + url,
     "END:VEVENT", "END:VCALENDAR"]
  }

  lemma IcalLinesParts(uid: string, stamp: string, start: string, end: string,
                       summary: string, description: string, location: string, url: string)
    ensures IcalLines(uid, stamp, start, end, summary, description, location, url)
      == Header + FieldLines(uid, stamp, start, end, summary, description, location, url) + Footer
  {
  }

  /** Each line followed by CRLF, as the `.=` chain builds the document. */
  function Serialize(lines: seq<string>): string {
    if lines == [] then [] else lines[0] + CRLF + Serialize(lines[1..])
  }

  /** The index of the first CR in `s`, or `|s|` when there is none. */
  function CrIndex(s: string): (n: nat)
    ensures n <= |s| && CR !in s[..n]
    ensures n < |s| ==> s[n] == CR
  {
    if s == [] || s[0] == CR then 0
    else
      var n := CrIndex(s[1..]) + 1;
      assert s[..n] == [s[0]] + s[1..][..n - 1];
      n
  }

  /** A document read as CRLF-terminated lines; an unterminated tail is one last line. */
  function Parse(s: string): seq<string>
    decreases |s|
  {
    if s == [] then []
    else
      var n := CrIndex(s);
      if n + 2 <= |s| then [s[..n]] + Parse(s[n + 2..]) else [s]
  }

  lemma {:induction false} CrIndexAfterLine(a: string, b: string)
    requires CR !in a
    ensures CrIndex(a + [CR] + b) == |a|
    decreases |a|
  {
    if a != [] {
      assert (a + [CR] + b)[1..] == a[1..] + [CR] + b;
      CrIndexAfterLine(a[1..], b);
    }
  }

  /** Splitting a serialized document at its CRLFs gives back its lines, when none of them
      holds a CR. */
  lemma {:induction false} ParseSerialize(lines: seq<string>)
    requires NoCrLines(lines)
    ensures Parse(Serialize(lines)) == lines
    decreases |lines|
  {
    if lines != [] {
      var rest := Serialize(lines[1..]);
      var s := Serialize(lines);
      assert s == lines[0] + [CR] + ([LF] + rest);
      CrIndexAfterLine(lines[0], [LF] + rest);
      assert s[..|lines[0]|] == lines[0];
      assert s[|lines[0]| + 2..] == rest;
      assert forall i :: 0 <= i < |lines| - 1 ==> lines[1..][i] == lines[i + 1];
      ParseSerialize(lines[1..]);
    }
  }

  lemma NoCrJoin(a: string, b: string)
    requires CR !in a && CR !in b
    ensures CR !in a + b
  {
    assert forall i :: 0 <= i < |a + b| ==> (a + b)[i] == if i < |a| then a[i] else b[i - |a|];
  }

  predicate NoCrLines(lines: seq<string>) {
    forall i :: 0 <= i < |lines| ==> CR !in lines[i]
  }

  lemma NoCrLinesConcat(a: seq<string>, b: seq<string>)
    requires NoCrLines(a) && NoCrLines(b)
    ensures NoCrLines(a + b)
  {
    assert forall i :: 0 <= i < |a + b| ==> (a + b)[i] == if i < |a| then a[i] else b[i - |a|];
  }

  lemma ProdIdNoCr()
    ensures CR !in "PRODID:-//CampaignPress//Event Calendar//EN"
  {
  }

  lemma HeaderNoCr()
    ensures NoCrLines(Header)
  {
    ProdIdNoCr();
    assert CR !in Header[0] && CR !in Header[1] && CR !in Header[3];
  }

  lemma FooterNoCr()
    ensures NoCrLines(Footer)
  {
  }

  lemma FieldLinesNoCr(uid: string, stamp: string, start: string, end: string,
                       summary: string, description: string, location: string, url: string)
    requires CR !in uid && CR !in stamp && CR !in start && CR !in end && CR !in url
    requires CR !in summary && CR !in description && CR !in location
    ensures NoCrLines(FieldLines(uid, stamp, start, end, summary, description, location, url))
  {
    NoCrJoin("UID:", uid);
    NoCrJoin("DTSTAMP:", stamp);
    NoCrJoin("DTSTART:", start);
    NoCrJoin("DTEND:", end);
    NoCrJoin("SUMMARY:", summary);
    NoCrJoin("DESCRIPTION:", description);
    NoCrJoin("LOCATION:", location);
    NoCrJoin("URL:", url);
  }

  /** `generate_ical` with the texts already escaped. */
  function IcalDocument(uid: string, stamp: string, start: string, end: string,
                        summary: string, description: string, location: string, url: string): string {
    Serialize(IcalLines(uid, stamp, start, end, summary, description, location, url))
  }

  /** The document is exactly fourteen CRLF-terminated lines, VCALENDAR around VEVENT,
      whenever no field brings its own CR. */
  lemma IcalDocumentLayout(uid: string, stamp: string, start: string, end: string,
                           summary: string, description: string, location: string, url: string)
    requires CR !in uid && CR !in stamp && CR !in start && CR !in end && CR !in url
    requires CR !in summary && CR !in description && CR !in location
    ensures var lines := Parse(IcalDocument(uid, stamp, start, end, summary, description, location, url));
      && lines == IcalLines(uid, stamp, start, end, summary, description, location, url)
      && |lines| == 14
  {
    var fields := FieldLines(uid, stamp, start, end, summary, description, location, url);
    IcalLinesParts(uid, stamp, start, end, summary, description, location, url);
    HeaderNoCr();
    FooterNoCr();
    FieldLinesNoCr(uid, stamp, start, end, summary, description, location, url);
    NoCrLinesConcat(Header, fields);
    NoCrLinesConcat(Header + fields, Footer);
    ParseSerialize(Header + fields + Footer);
  }

  /** The DTSTART, DTEND, SUMMARY and LOCATION lines read back from the document. */
  lemma DocumentFieldLines(uid: string, stamp: string, start: string, end: string,
                           summary: string, description: string, location: string, url: string)
    requires CR !in uid && CR !in stamp && CR !in start && CR !in end && CR !in url
    requires CR !in summary && CR !in description && CR !in location
    ensures var lines := Parse(IcalDocument(uid, stamp, start, end, summary, description, location, url));
      && |lines| == 14
      && lines[6] == "DTSTART:" + start && lines[7] == "DTEND:" + end
      && lines[8] == "SUMMARY:" + summary && lines[10] == "LOCATION:" + location
  {
    IcalDocumentLayout(uid, stamp, start, end, summary, description, location, url);
  }

  /** `date('Ymd\THis\Z', strtotime($s))`: an unparsable date is `false`, printed as the epoch. */
  function Stamp(h: Host.Host, s: string): (r: string)
    ensures h.strtotime(s).None? ==> r == h.formatUtc(0)
    ensures forall t :: h.strtotime(s) == Some(t) ==> r == h.formatUtc(t)
  {
    h.formatUtc(h.strtotime(s).GetOr(0))
  }

  /** `date('Ymd\THis\Z', strtotime($event_date . ' +2 hours'))`: the host reads the
      phrase, so an empty date ends two hours after the request's clock. */
  function EndStamp(h: Host.Host, eventDate: string): (r: string)
    ensures r == Stamp(h, eventDate + " +2 hours")
  {
    h.formatUtc(h.strtotime(eventDate + " +2 hours").GetOr(0))
  }

  /** `generate_ical($event, $event_date, $location)` as written, with `escape_ical`. */
  function GenerateIcalAsWritten(h: Host.Host, id: nat, p: Post, postDate: string, eventDate: string,
                                 location: string, blogUrl: string, permalink: string): string {
    IcalDocument(Decimal(id) + "@" + blogUrl, Stamp(h, postDate), Stamp(h, eventDate), EndStamp(h, eventDate),
      EscapeIcal(p.title), EscapeIcal(h.stripTags(p.content)), EscapeIcal(location), permalink)
  }

  /** `generate_ical` with the text fields escaped as section 3.3.11 of RFC 5545 asks. */
  function GenerateIcal(h: Host.Host, id: nat, p: Post, postDate: string, eventDate: string,
                        location: string, blogUrl: string, permalink: string): string {
    IcalDocument(Decimal(id) + "@" + blogUrl, Stamp(h, postDate), Stamp(h, eventDate), EndStamp(h, eventDate),
      EscapeText(p.title), EscapeText(h.stripTags(p.content)), EscapeText(location), permalink)
  }

  /** The generated document is fourteen lines with DTEND two hours after DTSTART when the
      host reads the date and the date two hours on as two hours apart; the title,
      description and location can never break a line. */
  lemma GenerateIcalLayout(h: Host.Host, id: nat, p: Post, postDate: string, eventDate: string,
                           location: string, blogUrl: string, permalink: string, t: int)
    requires CR !in blogUrl && CR !in permalink
    requires CR !in h.formatUtc(h.strtotime(postDate).GetOr(0))
    requires h.strtotime(eventDate) == Some(t) && h.strtotime(eventDate + " +2 hours") == Some(t + 7200)
    requires CR !in h.formatUtc(t) && CR !in h.formatUtc(t + 7200)
    ensures var lines := Parse(GenerateIcal(h, id, p, postDate, eventDate, location, blogUrl, permalink));
      && |lines| == 14
      && lines[6] == "DTSTART:" + h.formatUtc(t) && lines[7] == "DTEND:" + h.formatUtc(t + 7200)
      && lines[8] == "SUMMARY:" + EscapeText(p.title) && lines[10] == "LOCATION:" + EscapeText(location)
  {
    var uid := Decimal(id) + "@" + blogUrl;
    assert CR !in Decimal(id);
    assert CR !in uid;
    var start, end := Stamp(h, eventDate), EndStamp(h, eventDate);
    assert start == h.formatUtc(t) && end == h.formatUtc(t + 7200);
    DocumentFieldLines(uid, Stamp(h, postDate), start, end,
      EscapeText(p.title), EscapeText(h.stripTags(p.content)), EscapeText(location), permalink);
  }

  /** The same layout holds for the document as written: `escape_ical` removes every CR. */
  lemma GenerateIcalAsWrittenLayout(h: Host.Host, id: nat, p: Post, postDate: string, eventDate: string,
                                    location: string, blogUrl: string, permalink: string, t: int)
    requires CR !in blogUrl && CR !in permalink
    requires CR !in h.formatUtc(h.strtotime(postDate).GetOr(0))
    requires h.strtotime(eventDate) == Some(t) && h.strtotime(eventDate + " +2 hours") == Some(t + 7200)
    requires CR !in h.formatUtc(t) && CR !in h.formatUtc(t + 7200)
    ensures var lines := Parse(GenerateIcalAsWritten(h, id, p, postDate, eventDate, location, blogUrl, permalink));
      && |lines| == 14
      && lines[6] == "DTSTART:" + h.formatUtc(t) && lines[7] == "DTEND:" + h.formatUtc(t + 7200)
      && lines[8] == "SUMMARY:" + EscapeIcal(p.title) && lines[10] == "LOCATION:" + EscapeIcal(location)
  {
    var uid := Decimal(id) + "@" + blogUrl;
    assert CR !in Decimal(id);
    assert CR !in uid;
    EscapeIcalNoLineBreaks(p.title);
    EscapeIcalNoLineBreaks(h.stripTags(p.content));
    EscapeIcalNoLineBreaks(location);
    var start, end := Stamp(h, eventDate), EndStamp(h, eventDate);
    assert start == h.formatUtc(t) && end == h.formatUtc(t + 7200);
    DocumentFieldLines(uid, Stamp(h, postDate), start, end,
      EscapeIcal(p.title), EscapeIcal(h.stripTags(p.content)), EscapeIcal(location), permalink);
  }

  // ------------------------------------------------------------- export

  /** `handle_ical_export()` on `template_redirect`: the document for
      `?cp_ical_export&event_id=N`, or None when a parameter is missing or the post is not an
      event. `intval` of "0" or of a non-numeric id is 0, and `get_post(0)` is the global
      `$post`, the queried post `current`; the meta is still read for id 0, which holds
      none, so the date is empty and the location is ", ". */
  function IcalExport(h: Host.Host, s: Site, get: map<string, string>, current: Option<nat>, postDate: string,
                      blogUrl: string, permalink: string): (r: Option<string>)
    ensures "cp_ical_export" !in get || "event_id" !in get ==> r.None?
    // a positive id exports that post when it is an event
    ensures "cp_ical_export" in get && "event_id" in get && h.intval(get["event_id"]) > 0 ==>
      (r.Some? <==> h.intval(get["event_id"]) in s.posts && s.posts[h.intval(get["event_id"])].postType == "cp_event")
    // id 0 exports the queried post when it is an event, with no date and the location ", "
    ensures "cp_ical_export" in get && "event_id" in get && h.intval(get["event_id"]) == 0 ==>
      (r.Some? <==> current.Some? && current.value in s.posts && s.posts[current.value].postType == "cp_event")
    ensures "cp_ical_export" in get && "event_id" in get && h.intval(get["event_id"]) == 0 && r.Some? ==>
      r.value == GenerateIcalAsWritten(h, current.value, s.posts[current.value], postDate, "", ", ", blogUrl, permalink)
    // a negative id names no post
    ensures "cp_ical_export" in get && "event_id" in get && h.intval(get["event_id"]) < 0 ==> r.None?
  {
    if "cp_ical_export" !in get || "event_id" !in get then None
    else
      var id := h.intval(get["event_id"]);
      var target := if id == 0 then current else if id > 0 then Some(id as nat) else None;
      if target.None? || target.value !in s.posts || s.posts[target.value].postType != "cp_event" then None
      else
        var meta: Meta := if id == 0 then map[] else s.posts[target.value].meta;
        assert id == 0 ==> GetMeta(meta, "_cp_event_venue") + ", " + GetMeta(meta, "_cp_event_address") == ", ";
        Some(GenerateIcalAsWritten(h, target.value, s.posts[target.value], postDate, GetMeta(meta, "_cp_event_date"),
          GetMeta(meta, "_cp_event_venue") + ", " + GetMeta(meta, "_cp_event_address"), blogUrl, permalink))
  }

  /** The exported document of an event named by its id: fourteen lines, DTEND two hours
      after DTSTART, the title and the venue and address joined by ", " escaped with
      `escape_ical`. */
  lemma IcalExportLayout(h: Host.Host, s: Site, get: map<string, string>, current: Option<nat>, postDate: string,
                         blogUrl: string, permalink: string, t: int)
    requires "cp_ical_export" in get && "event_id" in get
    requires var id := h.intval(get["event_id"]); id > 0 && id in s.posts && s.posts[id].postType == "cp_event"
    requires CR !in blogUrl && CR !in permalink && CR !in h.formatUtc(h.strtotime(postDate).GetOr(0))
    requires var date := GetMeta(s.posts[h.intval(get["event_id"])].meta, "_cp_event_date");
      h.strtotime(date) == Some(t) && h.strtotime(date + " +2 hours") == Some(t + 7200)
    requires CR !in h.formatUtc(t) && CR !in h.formatUtc(t + 7200)
    ensures var r := IcalExport(h, s, get, current, postDate, blogUrl, permalink);
      var p := s.posts[h.intval(get["event_id"])];
      && r.Some? && |Parse(r.value)| == 14
      && Parse(r.value)[6] == "DTSTART:" + h.formatUtc(t) && Parse(r.value)[7] == "DTEND:" + h.formatUtc(t + 7200)
      && Parse(r.value)[8] == "SUMMARY:" + EscapeIcal(p.title)
      && Parse(r.value)[10] == "LOCATION:" + EscapeIcal(GetMeta(p.meta, "_cp_event_venue") + ", " + GetMeta(p.meta, "_cp_event_address"))
  {
    var id := h.intval(get["event_id"]);
    var p := s.posts[id];
    var location := GetMeta(p.meta, "_cp_event_venue") + ", " + GetMeta(p.meta, "_cp_event_address");
    GenerateIcalAsWrittenLayout(h, id, p, postDate, GetMeta(p.meta, "_cp_event_date"), location, blogUrl, permalink, t);
  }

  /** With `event_id=0` on an event's own page the queried event is exported, but under an
      empty date, so its times are the host's reading of "" and " +2 hours", and its
      LOCATION is the escaped ", " whatever venue it stores. */
  lemma ExportOfQueriedPost(h: Host.Host, s: Site, get: map<string, string>, cur: nat, postDate: string,
                            blogUrl: string, permalink: string, t: int)
    requires "cp_ical_export" in get && "event_id" in get && h.intval(get["event_id"]) == 0
    requires cur in s.posts && s.posts[cur].postType == "cp_event"
    requires CR !in blogUrl && CR !in permalink && CR !in h.formatUtc(h.strtotime(postDate).GetOr(0))
    requires h.strtotime("") == Some(t) && h.strtotime("" + " +2 hours") == Some(t + 7200)
    requires CR !in h.formatUtc(t) && CR !in h.formatUtc(t + 7200)
    ensures var r := IcalExport(h, s, get, Some(cur), postDate, blogUrl, permalink);
      && r.Some? && |Parse(r.value)| == 14
      && Parse(r.value)[6] == "DTSTART:" + h.formatUtc(t) && Parse(r.value)[7] == "DTEND:" + h.formatUtc(t + 7200)
      && Parse(r.value)[8] == "SUMMARY:" + EscapeIcal(s.posts[cur].title)
      && Parse(r.value)[10] == "LOCATION:" + EscapeIcal(", ")
  {
    var doc := GenerateIcalAsWritten(h, cur, s.posts[cur], postDate, "", ", ", blogUrl, permalink);
    assert IcalExport(h, s, get, Some(cur), postDate, blogUrl, permalink) == Some(doc);
    GenerateIcalAsWrittenLayout(h, cur, s.posts[cur], postDate, "", ", ", blogUrl, permalink, t);
  }

  /** An event with neither venue nor address still gets a LOCATION line: the escaped ", ". */
  lemma ExportWithoutAddress()
    ensures EscapeIcal("" + ", " + "") == "\\, " && EscapeText("" + ", " + "") == "\\, "
  {
    assert "" + ", " + "" == ", ";
    EscapeIcalIsOnePass(", ");
    assert EscapeOnePass(", ") == "\\," + EscapeOnePass(" ");
  }
}
