/**
 * Submitting a new topic in the later snapshot (ikiEpep/src/pages/TopicAddPage.jsx):
 * the trimmed title and content are checked, title first, and become the body
 * of the request to the server. The picture input uses `Records.ImagePicker`.
 */
module TopicAdd {
  import opened Wrappers
  import opened Text

  datatype SubmitError =
    | TitleEmpty     // "Judul topik tidak boleh kosong."
    | ContentEmpty   // "Konten diskusi tidak boleh kosong."

  /** `{ title: title.trim(), content: content.trim() }`: the picture is not sent. */
  datatype Body = Body(title: string, content: string)

  /**
   * The checks of `handleSubmit` and the body it would post: a blank title is
   * reported before the content is looked at; otherwise a blank content is
   * reported; otherwise the body holds exactly the trimmed fields, neither empty.
   */
  function SubmitBody(title: string, content: string): (r: Result<Body, SubmitError>)
    ensures r == Failure(TitleEmpty) <==> IsBlank(title)
    ensures r == Failure(ContentEmpty) <==> !IsBlank(title) && IsBlank(content)
    ensures r.Success? <==> !IsBlank(title) && !IsBlank(content)
    ensures r.Success? ==> r.value.title != [] && r.value.content != []
    ensures r.Success? ==> r.value == Body(Trim(title), Trim(content))
  {
    if IsBlank(title) then Failure(TitleEmpty)
    else if IsBlank(content) then Failure(ContentEmpty)
    else Success(Body(Trim(title), Trim(content)))
  }

  /** Submitting what a successful submit sent gives the same body again. */
  lemma {:induction false} SubmitBodyStable(title: string, content: string)
    requires SubmitBody(title, content).Success?
    ensures var b := SubmitBody(title, content).value;
            SubmitBody(b.title, b.content) == Success(b)
  {
    TrimIdempotent(title);
    TrimIdempotent(content);
  }
}
