/**
 * The change notification that `checkId` composes: its subject line and its HTML
 * body (which is also sent as the plain-text part). Sending it is not modelled.
 */
module Compose {

  /** The monitored calendar. */
  const BaseUrl: string := "https://bodo.innsynsportal.no/motekalender"

  /** The detail page of one meeting; the fetcher opens it and the body links to it. */
  function DetailUrl(id: string): string {
    BaseUrl + "/motedag/" + id
  }

  /** The fixed start of every change subject. */
  const SubjectPrefix: string := "Forandring i møteplanen: ("

  /** The subject: the header and the id when the header is non-empty (truthy), else the id alone. */
  function ChangeSubject(header: string, id: string): (s: string)
    ensures |s| == |SubjectPrefix| + (if header != "" then |header| + 1 else 0) + |id| + 1
    ensures s[..|SubjectPrefix|] == SubjectPrefix && s[|s| - 1] == ')'
  {
    SubjectPrefix + (if header != "" then header + " " + id else id) + ")"
  }

  /** A line break followed by the template's indentation. */
  const Indent: string := "\n            "

  /** A titled, shaded block of the body holding `content`. */
  function Block(title: string, content: string): string {
    "<h1>" + title + "</h1>" + Indent
    + "<div style=\"padding: 15px; background: #f4f4f4;\">" + "\n                "
    + content + Indent + "</div>"
  }

  /** The link to a detail page, with the URL as its text. */
  function Anchor(url: string): string {
    "<a href=\"" + url + "\">" + url + "</a>"
  }

  /** The body up to the first block: the timestamp line and the link. */
  function BodyHead(timestamp: string, id: string): string {
    Indent + ("Ny oppdatering " + timestamp) + (Indent + "<br>" + Indent) + Anchor(DetailUrl(id))
    + (Indent + "<br>" + Indent)
  }

  /** The number of characters the body template contributes itself. */
  const TemplateLength: nat := 393

  /** The HTML body. The template interpolates the new snapshot into both blocks. */
  function ChangeBody(timestamp: string, id: string, newData: string): (b: string)
    ensures |b| == TemplateLength + |timestamp| + 2 * |DetailUrl(id)| + 2 * |newData|
  {
    BodyHead(timestamp, id)
    + Block("Ny data:", newData)
    + (Indent + "<br>" + Indent + "<br>" + Indent)
    + Block("Gammel data:", newData)
    + "\n        "
  }

  /** The message handed to the mail service. */
  datatype Mail = Mail(subject: string, text: string, html: string)

  /** The change notification for meeting `id`. */
  function ChangeMail(id: string, header: string, newData: string, timestamp: string): (m: Mail)
    ensures m.text == m.html
  {
    var body := ChangeBody(timestamp, id, newData);
    Mail(ChangeSubject(header, id), body, body)
  }

  /** `s` starts with `prefix`. */
  predicate StartsWith(s: string, prefix: string) {
    |prefix| <= |s| && s[..|prefix|] == prefix
  }

  /** `sub` occurs somewhere in `s`. */
  predicate Contains(s: string, sub: string)
    decreases |s|
  {
    StartsWith(s, sub) || (|s| > 0 && Contains(s[1..], sub))
  }

  lemma {:induction false} ContainsInLeft(x: string, y: string, sub: string)
    requires Contains(x, sub)
    ensures Contains(x + y, sub)
    decreases |x|
  {
    if StartsWith(x, sub) {
      assert (x + y)[..|sub|] == x[..|sub|];
    } else {
      ContainsInLeft(x[1..], y, sub);
      assert (x + y)[1..] == x[1..] + y;
    }
  }

  lemma {:induction false} ContainsInRight(x: string, y: string, sub: string)
    requires Contains(y, sub)
    ensures Contains(x + y, sub)
    decreases |x|
  {
    if x == [] {
      assert x + y == y;
    } else {
      ContainsInRight(x[1..], y, sub);
      assert (x + y)[1..] == x[1..] + y;
    }
  }

  lemma AppendKeeps(x: string, y: string, a: string, b: string)
    requires Contains(x, a) && Contains(x, b)
    ensures Contains(x + y, a) && Contains(x + y, b)
  {
    ContainsInLeft(x, y, a);
    ContainsInLeft(x, y, b);
  }

  lemma ContainsItself(s: string)
    ensures Contains(s, s)
  {
    assert s[..|s|] == s;
  }

  /** The subject starts with the fixed prefix and ends with the id; a non-empty header
      stands right after the prefix, and an empty one leaves the id alone. */
  lemma {:induction false} SubjectNamesMeeting(header: string, id: string)
    ensures var s := ChangeSubject(header, id);
      && |s| >= |SubjectPrefix| + |id| + 1
      && s[..|SubjectPrefix|] == SubjectPrefix
      && s[|s| - |id| - 1..] == id + ")"
      && (header == "" ==> s == SubjectPrefix + id + ")")
      && (header != "" ==> s[|SubjectPrefix|..|SubjectPrefix| + |header| + 1] == header + " ")
      && (header != "" ==> s == SubjectPrefix + header + " " + id + ")")
  {
    var s := ChangeSubject(header, id);
    if header == "" {
      assert s == SubjectPrefix + id + ")";
    } else {
      assert s == SubjectPrefix + (header + " ") + (id + ")");
    }
  }

  /** The body carries the timestamp, a link to the meeting's detail page, and the
      new snapshot in the "Ny data" block AND in the "Gammel data" block. */
  lemma ChangeBodyShowsNewDataTwice(timestamp: string, id: string, newData: string)
    ensures var body := ChangeBody(timestamp, id, newData);
      && Contains(body, "Ny oppdatering " + timestamp)
      && Contains(body, Anchor(DetailUrl(id)))
      && Contains(body, Block("Ny data:", newData))
      && Contains(body, Block("Gammel data:", newData))
  {
    var stamp, link := "Ny oppdatering " + timestamp, Anchor(DetailUrl(id));
    var nb, ob := Block("Ny data:", newData), Block("Gammel data:", newData);
    var br1, br2 := Indent + "<br>" + Indent, Indent + "<br>" + Indent + "<br>" + Indent;
    var h1 := Indent + stamp;
    var h2 := h1 + br1 + link;
    var head := h2 + br1;
    assert head == BodyHead(timestamp, id);
    var b1 := head + nb;
    var b2 := b1 + br2 + ob;
    var body := b2 + "\n        ";
    assert body == ChangeBody(timestamp, id, newData);
    // The timestamp line and the link lie in the head.
    ContainsItself(stamp);
    ContainsInRight(Indent, stamp, stamp);
    ContainsInLeft(h1, br1, stamp);
    ContainsInLeft(h1 + br1, link, stamp);
    ContainsItself(link);
    ContainsInRight(h1 + br1, link, link);
    AppendKeeps(h2, br1, stamp, link);
    // Both blocks follow it.
    ContainsItself(nb);
    ContainsInRight(head, nb, nb);
    AppendKeeps(head, nb, stamp, link);
    AppendKeeps(b1, br2, stamp, link);
    ContainsInLeft(b1, br2, nb);
    AppendKeeps(b1 + br2, ob, stamp, link);
    ContainsInLeft(b1 + br2, ob, nb);
    ContainsItself(ob);
    ContainsInRight(b1 + br2, ob, ob);
    AppendKeeps(b2, "\n        ", stamp, link);
    AppendKeeps(b2, "\n        ", nb, ob);
  }
}
