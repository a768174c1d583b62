/** `EmailClassificationService.process_text_input` of
    services/email_service.py: split the input into e-mails and, for each
    one in order, clean it, classify the cleaned text with the language
    model, and extract its keywords.

    The remote call is the function `remote`: given the position of the
    e-mail and the cleaned text, it yields the answer text or the message of
    the exception raised. Taking the position lets two calls with the same
    text answer differently, as the real service may. */
module Pipeline {
  import opened Wrappers
  import opened Json
  import Text
  import Nlp
  import Gemini

  /** The dictionary built for one e-mail; `error` is `None` unless the
      fail-safe path was taken. */
  datatype EmailResult = EmailResult(
    original: string,
    cleaned: string,
    category: string,
    reply: JsonValue,
    keywords: seq<string>,
    error: Option<Gemini.Fault>)

  /** The record `process_text_input` builds for the e-mail at position
      `i`: the e-mail, its cleaned form, the classification of the cleaned
      form, and the keywords of the cleaned form. */
  function ResultFor(
    nlp: Nlp.NlpService,
    gemini: Gemini.GeminiService,
    remote: (nat, string) -> Result<string, string>,
    i: nat,
    email: string): EmailResult
  {
    var cleaned := Nlp.PreprocessForAnalysis(nlp, email).cleaned;
    var verdict := Gemini.ClassifyEmail(gemini, remote(i, cleaned));
    EmailResult(email, cleaned, verdict.category, verdict.reply,
      Nlp.ExtractKeywords(nlp, cleaned, Nlp.DefaultTopN), verdict.error)
  }

  /** Every record carries its e-mail, the cleaned text, the verdict of
      `classify_email` on the answer to the cleaned text, and the keywords of
      the cleaned text: one of the two labels and at most five keywords; a
      record with an error is labelled `Importante` and has no reply; the
      record has an error exactly when the call or the parsing of its answer
      failed. */
  lemma {:induction false} ResultForSpec(
    nlp: Nlp.NlpService,
    gemini: Gemini.GeminiService,
    remote: (nat, string) -> Result<string, string>,
    i: nat,
    email: string)
    ensures var r := ResultFor(nlp, gemini, remote, i, email);
      var call := remote(i, Nlp.CleanText(nlp.tables, email));
      var v := Gemini.ClassifyEmail(gemini, call);
      && r.original == email
      && r.cleaned == Nlp.CleanText(nlp.tables, email)
      && r.category == v.category && r.reply == v.reply && r.error == v.error
      && Gemini.IsLabel(r.category)
      && r.keywords == Nlp.ExtractKeywords(nlp, r.cleaned, Nlp.DefaultTopN)
      && |r.keywords| <= Nlp.DefaultTopN
      && (r.error.Some? ==> r.category == Gemini.Important && r.reply == JNull)
      && (r.error.None? <==> call.Ok? && Gemini.ParseResponse(gemini, call.value).Ok?)
  {
    var cleaned := Nlp.CleanText(nlp.tables, email);
    Nlp.ExtractKeywordsSpec(nlp, cleaned, Nlp.DefaultTopN);
  }

  /** `[f(i, xs[i]) for i in range(len(xs))]`, built front to back. */
  function MapIndexed(f: (nat, string) -> EmailResult, xs: seq<string>): (rs: seq<EmailResult>)
    ensures |rs| == |xs|
    decreases |xs|
  {
    if xs == [] then []
    else
      var k := |xs| - 1;
      MapIndexed(f, xs[..k]) + [f(k, xs[k])]
  }

  /** Element `i` of `MapIndexed` is `f` applied to position `i` and element `i`. */
  lemma {:induction false} MapIndexedAt(f: (nat, string) -> EmailResult, xs: seq<string>, i: nat)
    requires i < |xs|
    ensures MapIndexed(f, xs)[i] == f(i, xs[i])
    decreases |xs|
  {
    var k := |xs| - 1;
    if i < k {
      var front := xs[..k];
      MapIndexedAt(f, front, i);
      assert front[i] == xs[i];
    }
  }

  /** One more element extends `MapIndexed` by one application of `f`. */
  lemma {:induction false} MapIndexedSnoc(f: (nat, string) -> EmailResult, xs: seq<string>, i: nat)
    requires i < |xs|
    ensures MapIndexed(f, xs[..i + 1]) == MapIndexed(f, xs[..i]) + [f(i, xs[i])]
  {
    assert xs[..i + 1][..i] == xs[..i];
  }

  /** `ResultFor` with the services and the remote call fixed. */
  function Recorder(
    nlp: Nlp.NlpService,
    gemini: Gemini.GeminiService,
    remote: (nat, string) -> Result<string, string>): (nat, string) -> EmailResult
  {
    (i: nat, email: string) => ResultFor(nlp, gemini, remote, i, email)
  }

  /** The records `process_text_input` returns for `emails`: the record of
      each e-mail at its own position, in order. */
  function ProcessAll(
    nlp: Nlp.NlpService,
    gemini: Gemini.GeminiService,
    remote: (nat, string) -> Result<string, string>,
    emails: seq<string>): seq<EmailResult>
  {
    MapIndexed(Recorder(nlp, gemini, remote), emails)
  }

  /** What record `i` of `process_text_input` carries: e-mail `i` and the
      cleaned form of it, the verdict of `classify_email` on the answer of
      call `i`, the keywords of the cleaned form (at most five), one of the
      two labels, and an error exactly when the call or the parsing of its
      answer failed, in which case it is labelled `Importante` and has no
      reply. */
  lemma {:induction false} ProcessAllSpec(
    nlp: Nlp.NlpService,
    gemini: Gemini.GeminiService,
    remote: (nat, string) -> Result<string, string>,
    emails: seq<string>,
    i: nat)
    requires i < |emails|
    ensures |ProcessAll(nlp, gemini, remote, emails)| == |emails|
    ensures var r := ProcessAll(nlp, gemini, remote, emails)[i];
      var call := remote(i, Nlp.CleanText(nlp.tables, emails[i]));
      var v := Gemini.ClassifyEmail(gemini, call);
      && r.original == emails[i]
      && r.cleaned == Nlp.CleanText(nlp.tables, emails[i])
      && r.category == v.category && r.reply == v.reply && r.error == v.error
      && Gemini.IsLabel(r.category)
      && r.keywords == Nlp.ExtractKeywords(nlp, r.cleaned, Nlp.DefaultTopN)
      && |r.keywords| <= Nlp.DefaultTopN
      && (r.error.Some? ==> r.category == Gemini.Important && r.reply == JNull)
      && (r.error.None? <==> call.Ok? && Gemini.ParseResponse(gemini, call.value).Ok?)
  {
    MapIndexedAt(Recorder(nlp, gemini, remote), emails, i);
    ResultForSpec(nlp, gemini, remote, i, emails[i]);
  }

  /** A blank input without the separator is still one e-mail: one record,
      for the empty e-mail, whose cleaned text `""` is sent to the model. */
  lemma {:induction false} BlankInputGivesOneRecord(
    nlp: Nlp.NlpService,
    gemini: Gemini.GeminiService,
    remote: (nat, string) -> Result<string, string>,
    text: string)
    requires Text.AllSpace(nlp.tables, text) && !Text.Contains(text, Nlp.EmailSeparator)
    ensures var rs := ProcessAll(nlp, gemini, remote, Nlp.SplitEmails(nlp, text));
      && |rs| == 1 && rs[0].original == "" && rs[0].cleaned == ""
  {
    Nlp.SplitWithoutSeparator(nlp, text);
    var emails := Nlp.SplitEmails(nlp, text);
    assert emails == [""];
    ProcessAllSpec(nlp, gemini, remote, emails, 0);
    assert Nlp.CleanText(nlp.tables, "") == "";
  }

  /** The loop of `process_text_input`: for each e-mail in order, clean it,
      classify the cleaned text, extract its keywords and append the record. */
  method ProcessEmails(
    nlp: Nlp.NlpService,
    gemini: Gemini.GeminiService,
    emails: seq<string>,
    remote: (nat, string) -> Result<string, string>)
    returns (results: seq<EmailResult>)
    ensures results == ProcessAll(nlp, gemini, remote, emails)
  {
    results := [];
    for i := 0 to |emails|
      invariant results == MapIndexed(Recorder(nlp, gemini, remote), emails[..i])
    {
      MapIndexedSnoc(Recorder(nlp, gemini, remote), emails, i);
      var email := emails[i];
      var processed := Nlp.PreprocessForAnalysis(nlp, email);
      var verdict := Gemini.ClassifyEmail(gemini, remote(i, processed.cleaned));
      var keywords := Nlp.ExtractKeywords(nlp, processed.cleaned, Nlp.DefaultTopN);
      var result := EmailResult(
        email, processed.cleaned, verdict.category, verdict.reply, keywords, verdict.error);
      assert result == Recorder(nlp, gemini, remote)(i, email);
      results := results + [result];
    }
    assert emails[..|emails|] == emails;
  }

  /** `process_text_input`: one record per e-mail of `split_emails`, in
      order. */
  method ProcessTextInput(
    nlp: Nlp.NlpService,
    gemini: Gemini.GeminiService,
    text: string,
    remote: (nat, string) -> Result<string, string>)
    returns (results: seq<EmailResult>)
    ensures results == ProcessAll(nlp, gemini, remote, Nlp.SplitEmails(nlp, text))
  {
    var emails := Nlp.SplitEmails(nlp, text);
    results := ProcessEmails(nlp, gemini, emails, remote);
  }
}
