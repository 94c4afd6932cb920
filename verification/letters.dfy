/** Letters of the "Aktuelles" section (aktuelles.js): choosing which attachments to fetch
    and turning the letters not yet processed into emails with their `ok` callbacks. */
module Letters {
  import opened Common
  import opened Processed

  /** What an attachment request yields: the file name from the `content-disposition`
      header and the body bytes. */
  datatype Download = Download(filename: string, content: seq<Byte>)

  /** A letter ("Elternbrief"). `url` is the href of the letter's link and `None` when the
      letter is a `span` without one; `dateString` is the rewritten `YYYY-MM-DD hh:mm:ss`
      date; `download` holds `letter.filename`/`letter.content` once `readAttachments` has
      fetched them. */
  datatype Letter = Letter(
    id: string,
    subject: string,
    body: string,
    url: Option<string>,
    dateString: string,
    download: Option<Download>)

  /** `readAttachments` fetches a letter's attachment unless the letter is processed or its
      url is falsy: `null`, and also the empty string. */
  predicate NeedsAttachment(l: Letter, processed: map<string, int>)
  {
    l.id !in processed && l.url.Some? && l.url.value != ""
  }

  /** The letters `readAttachments` requests, in list order. */
  function AttachmentTargets(letters: seq<Letter>, processed: map<string, int>): (r: seq<Letter>)
    ensures |r| <= |letters|
    ensures forall l :: l in r ==> l in letters && NeedsAttachment(l, processed)
  {
    if letters == [] then []
    else
      (if NeedsAttachment(letters[0], processed) then [letters[0]] else [])
      + AttachmentTargets(letters[1..], processed)
  }

  /** `readAttachments(page, letters, processedLetters)`. `fetch(url)` is the outcome of the
      HTTPS request for `url`: `None` for a request error, which rejects the whole call.
      On success every requested letter carries its download and every other letter is
      returned as it was. */
  function ReadAttachments(
    letters: seq<Letter>, processed: map<string, int>, fetch: string -> Option<Download>)
    : (r: Option<seq<Letter>>)
    ensures r.Some? <==> forall j :: 0 <= j < |letters| && NeedsAttachment(letters[j], processed) ==>
                           fetch(letters[j].url.value).Some?
    ensures r.Some? ==> |r.value| == |letters|
    ensures r.Some? ==> forall j :: 0 <= j < |letters| ==>
      r.value[j] == if NeedsAttachment(letters[j], processed)
                    then letters[j].(download := fetch(letters[j].url.value))
                    else letters[j]
  {
    if letters == [] then Some([])
    else
      var l := letters[0];
      if NeedsAttachment(l, processed) && fetch(l.url.value).None? then None
      else
        match ReadAttachments(letters[1..], processed, fetch)
        case None => None
        case Some(rest) =>
          var first := if NeedsAttachment(l, processed) then l.(download := fetch(l.url.value)) else l;
          Some([first] + rest)
  }

  /** The letters whose id is not a key of `processed`, in list order. */
  function Unprocessed(letters: seq<Letter>, processed: map<string, int>): (r: seq<Letter>)
    ensures |r| <= |letters|
  {
    if letters == [] then []
    else
      (if letters[0].id in processed then [] else [letters[0]])
      + Unprocessed(letters[1..], processed)
  }

  /** The attachment filter keeps exactly the letters that are unprocessed and have a
      non-empty url, and never more letters than it was given. */
  lemma {:induction false} AttachmentTargetsMembers(letters: seq<Letter>, processed: map<string, int>)
    ensures forall l :: l in AttachmentTargets(letters, processed) <==>
      l in letters && NeedsAttachment(l, processed)
    ensures |AttachmentTargets(letters, processed)| <= |letters|
    decreases |letters|
  {
    if letters != [] {
      AttachmentTargetsMembers(letters[1..], processed);
      assert forall l :: l in letters <==> l == letters[0] || l in letters[1..] by {
        assert letters == [letters[0]] + letters[1..];
      }
    }
  }

  /** No attachment is requested when no letter needs one. */
  lemma {:induction false} NoTargetsWhenNoneNeeded(letters: seq<Letter>, processed: map<string, int>)
    requires forall j :: 0 <= j < |letters| ==> !NeedsAttachment(letters[j], processed)
    ensures AttachmentTargets(letters, processed) == []
    decreases |letters|
  {
    if letters != [] {
      NoTargetsWhenNoneNeeded(letters[1..], processed);
    }
  }

  /** When no letter needs an attachment, `readAttachments` requests nothing and resolves
      with the letters unchanged, whatever the requests would have answered. */
  lemma ReadNothingNeeded(letters: seq<Letter>, processed: map<string, int>, fetch: string -> Option<Download>)
    requires forall j :: 0 <= j < |letters| ==> !NeedsAttachment(letters[j], processed)
    ensures ReadAttachments(letters, processed, fetch) == Some(letters)
  {
    var r := ReadAttachments(letters, processed, fetch);
    assert r.Some?;
    assert r.value == letters;
  }

  /** The selection keeps exactly the letters whose id is not a key of `processed`. */
  lemma {:induction false} UnprocessedMembers(letters: seq<Letter>, processed: map<string, int>)
    ensures forall l :: l in Unprocessed(letters, processed) <==> l in letters && l.id !in processed
    decreases |letters|
  {
    if letters != [] {
      UnprocessedMembers(letters[1..], processed);
      assert forall l :: l in letters <==> l == letters[0] || l in letters[1..] by {
        assert letters == [letters[0]] + letters[1..];
      }
    }
  }

  /** The email built for one letter: the sender marked as coming from "Aktuelles", subject
      and text copied from the letter, its date, and an attachment list exactly when a
      download is present (a `Buffer` is truthy even when empty), holding that download's
      name and bytes unchanged. */
  function LetterEmail(cfg: Config, l: Letter): (e: Email)
    ensures e.from == cfg.from + " (Elternportal - Aktuelles)" && e.to == cfg.to
    ensures e.subject == l.subject && e.text == l.body && e.date == Some(l.dateString)
    ensures e.attachments.Some? <==> l.download.Some?
    ensures l.download.Some? ==>
      e.attachments.value == [Attachment(l.download.value.filename, l.download.value.content)]
  {
    var attachments :=
      match l.download
      case None => None
      case Some(d) => Some([Attachment(d.filename, d.content)]);
    Email(cfg.from + " (Elternportal - Aktuelles)", cfg.to, l.subject, l.body,
          Some(l.dateString), attachments)
  }

  /** One entry of the list `buildEmailsForLetters` returns. */
  function LetterItem(cfg: Config, l: Letter): Outgoing
  {
    Outgoing(LetterEmail(cfg, l), MarkLetter(l.id))
  }

  /** `buildEmailsForLetters(letters, processedLetters)`: one item per letter not yet
      processed, oldest (last in the portal's list) first. */
  function BuildEmailsForLetters(cfg: Config, letters: seq<Letter>, processed: map<string, int>)
    : (items: seq<Outgoing>)
    ensures var u := Unprocessed(letters, processed);
      && |items| == |u|
      && forall k :: 0 <= k < |items| ==> items[k] == LetterItem(cfg, u[|u| - 1 - k])
  {
    if letters == [] then []
    else
      var rest := BuildEmailsForLetters(cfg, letters[1..], processed);
      if letters[0].id in processed then rest
      else
        ghost var u := Unprocessed(letters, processed);
        assert u == [letters[0]] + Unprocessed(letters[1..], processed);
        rest + [LetterItem(cfg, letters[0])]
  }

  /** Every callback of the letter emails records a letter. */
  lemma LetterCommitsOnlyLetters(cfg: Config, letters: seq<Letter>, processed: map<string, int>)
    ensures forall c :: c in Commits(BuildEmailsForLetters(cfg, letters, processed)) ==> c.MarkLetter?
  {
    var cs := Commits(BuildEmailsForLetters(cfg, letters, processed));
    forall c | c in cs
      ensures c.MarkLetter?
    {
      var k :| 0 <= k < |cs| && cs[k] == c;
    }
  }

  /** The callbacks of the letter emails record exactly the ids of the letters that are not
      yet processed. */
  lemma LetterCommitsAreUnprocessedIds(cfg: Config, letters: seq<Letter>, processed: map<string, int>)
    ensures LetterIds(Commits(BuildEmailsForLetters(cfg, letters, processed)))
         == set l | l in letters && l.id !in processed :: l.id
  {
    var items := BuildEmailsForLetters(cfg, letters, processed);
    var u := Unprocessed(letters, processed);
    var cs := Commits(items);
    UnprocessedMembers(letters, processed);
    forall id | id in LetterIds(cs)
      ensures exists l :: l in letters && l.id !in processed && l.id == id
    {
      var c :| c in cs && c.MarkLetter? && c.letterId == id;
      var k :| 0 <= k < |cs| && cs[k] == c;
      assert u[|u| - 1 - k] in u;
    }
    forall l | l in letters && l.id !in processed
      ensures l.id in LetterIds(cs)
    {
      assert l in u;
      var m :| 0 <= m < |u| && u[m] == l;
      assert cs[|u| - 1 - m] == MarkLetter(l.id);
    }
  }

  /** Selecting the unprocessed letters commutes with `readAttachments`: the letters it
      selects after the downloads are the ones it selects before, each with its download. */
  lemma {:induction false} UnprocessedAfterRead(
    letters: seq<Letter>, processed: map<string, int>, fetch: string -> Option<Download>)
    requires ReadAttachments(letters, processed, fetch).Some?
    ensures var u := Unprocessed(letters, processed);
      var v := Unprocessed(ReadAttachments(letters, processed, fetch).value, processed);
      && |v| == |u|
      && forall m :: 0 <= m < |u| ==>
           v[m] == if NeedsAttachment(u[m], processed)
                   then u[m].(download := fetch(u[m].url.value)) else u[m]
    decreases |letters|
  {
    if letters != [] {
      var ls := ReadAttachments(letters, processed, fetch).value;
      var l := letters[0];
      var rest := ReadAttachments(letters[1..], processed, fetch);
      assert rest.Some?;
      assert ls == [ls[0]] + rest.value;
      assert ls[1..] == rest.value;
      UnprocessedAfterRead(letters[1..], processed, fetch);
      var u1 := Unprocessed(letters[1..], processed);
      var v1 := Unprocessed(rest.value, processed);
      assert ls[0].id == l.id;
      if l.id in processed {
        assert Unprocessed(letters, processed) == u1;
        assert Unprocessed(ls, processed) == v1;
      } else {
        assert Unprocessed(letters, processed) == [l] + u1;
        assert Unprocessed(ls, processed) == [ls[0]] + v1;
      }
    }
  }

  /** The fidelity facts for the email at position `k` of the built list. */
  ghost predicate FaithfulLetterEmail(
    cfg: Config, u: seq<Letter>, items: seq<Outgoing>, fetch: string -> Option<Download>, k: nat)
    requires |items| == |u| && k < |items|
  {
    var l := u[|u| - 1 - k];
    var e := items[k].email;
    && e.subject == l.subject
    && e.text == l.body
    && items[k].commit == MarkLetter(l.id)
    && (e.attachments.Some? <==> l.url.Some? && l.url.value != "")
    && (e.attachments.Some? ==>
          && fetch(l.url.value).Some?
          && e.attachments.value == [Attachment(fetch(l.url.value).value.filename,
                                                fetch(l.url.value).value.content)])
  }

  /** Attachment fidelity across `readAttachments` and `buildEmailsForLetters`: for freshly
      scraped letters, the email of an unprocessed letter carries an attachment exactly when
      the letter has a non-empty url, and then it holds the fetched file name and bytes
      unchanged; subject and text are the letter's own. */
  lemma LetterAttachmentFidelity(
    cfg: Config, letters: seq<Letter>, processed: map<string, int>,
    fetch: string -> Option<Download>)
    requires forall l :: l in letters ==> l.download.None?
    requires ReadAttachments(letters, processed, fetch).Some?
    ensures var items := BuildEmailsForLetters(cfg, ReadAttachments(letters, processed, fetch).value, processed);
      var u := Unprocessed(letters, processed);
      && |items| == |u|
      && forall k :: 0 <= k < |items| ==> FaithfulLetterEmail(cfg, u, items, fetch, k)
  {
    UnprocessedAfterRead(letters, processed, fetch);
    forall k | 0 <= k < |Unprocessed(letters, processed)|
      ensures var items := BuildEmailsForLetters(cfg, ReadAttachments(letters, processed, fetch).value, processed);
        FaithfulLetterEmail(cfg, Unprocessed(letters, processed), items, fetch, k)
    {
      LetterAttachmentFidelityAt(cfg, letters, processed, fetch, k);
    }
  }

  lemma LetterAttachmentFidelityAt(
    cfg: Config, letters: seq<Letter>, processed: map<string, int>,
    fetch: string -> Option<Download>, k: nat)
    requires forall l :: l in letters ==> l.download.None?
    requires ReadAttachments(letters, processed, fetch).Some?
    requires k < |Unprocessed(letters, processed)|
    ensures var items := BuildEmailsForLetters(cfg, ReadAttachments(letters, processed, fetch).value, processed);
      |items| == |Unprocessed(letters, processed)| &&
      FaithfulLetterEmail(cfg, Unprocessed(letters, processed), items, fetch, k)
  {
    var ls := ReadAttachments(letters, processed, fetch).value;
    UnprocessedAfterRead(letters, processed, fetch);
    UnprocessedMembers(letters, processed);
    var items := BuildEmailsForLetters(cfg, ls, processed);
    var u := Unprocessed(letters, processed);
    var v := Unprocessed(ls, processed);
    var m := |u| - 1 - k;
    assert items[k] == LetterItem(cfg, v[m]);
    assert u[m] in u;
    var j :| 0 <= j < |letters| && letters[j] == u[m];
    if NeedsAttachment(u[m], processed) {
      assert fetch(letters[j].url.value).Some?;
    }
  }
}
