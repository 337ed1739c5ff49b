/** The dashboard of app_2.py: a POST of the selection form yields the Looker
    Studio report URL carrying the selection as query parameters; a GET yields
    no URL (an empty frame). */
module Dashboard {
  import opened Frames

  const LOOKER_BASE_URL: string :=
    "https://lookerstudio.google.com/reporting/c18e2663-f49b-4d0c-b52e-f9f751af31dc/page/grvIF"

  const BATCH_PARAM: string := "?Batch_year_="
  const SEMESTER_PARAM: string := "&Semester_="
  const COURSE_PARAM: string := "&Course_="

  datatype HttpMethod = Get | Post

  /** The three selected values, as they appear in the URL. */
  datatype Selection = Selection(batch: string, semester: string, course: string)

  /** `request.form.get(name)` formatted into an f-string: a missing field
      yields `None`, which formats as the text "None". */
  function FormText(form: map<string, string>, name: string): (t: string)
    ensures name in form ==> t == form[name]
    ensures name !in form ==> t == "None"
  {
    if name in form then form[name] else "None"
  }

  /** The selection the form submits. */
  function Selected(form: map<string, string>): Selection
  {
    Selection(FormText(form, "batch_year"), FormText(form, "semester"), FormText(form, "course"))
  }

  /** The URL for a selection: the fixed base followed by the three values,
      unescaped. */
  function ReportUrl(sel: Selection): (url: string)
    ensures StartsWith(url, LOOKER_BASE_URL + BATCH_PARAM)
    ensures EndsWith(url, sel.course)
    ensures |url| == |LOOKER_BASE_URL| + |BATCH_PARAM| + |sel.batch| + |SEMESTER_PARAM| + |sel.semester|
                     + |COURSE_PARAM| + |sel.course|
  {
    var url := LOOKER_BASE_URL + BATCH_PARAM + sel.batch + SEMESTER_PARAM + sel.semester + COURSE_PARAM + sel.course;
    assert url[..|LOOKER_BASE_URL + BATCH_PARAM|] == LOOKER_BASE_URL + BATCH_PARAM;
    assert url[|url| - |sel.course|..] == sel.course;
    url
  }

  /** The handler: a URL for a POST, none for a GET. */
  function LookerUrl(m: HttpMethod, form: map<string, string>): (u: Option<string>)
    ensures u.Some? <==> m == Post
    ensures u.Some? ==> u.value == ReportUrl(Selected(form))
  {
    match m
    case Get => None
    case Post => Some(ReportUrl(Selected(form)))
  }

  /** The position of the first `c` in `s`, or `|s|` when there is none. */
  function IndexOf(s: string, c: char): (i: nat)
    ensures i <= |s|
    ensures i < |s| ==> s[i] == c
    ensures forall j :: 0 <= j < i ==> s[j] != c
  {
    if s == [] then 0
    else if s[0] == c then 0
    else 1 + IndexOf(s[1..], c)
  }

  /** `s` without its prefix `p`, if it has it. */
  function Strip(s: string, p: string): Option<string>
  {
    if StartsWith(s, p) then Some(s[|p|..]) else None
  }

  /** `s` split before its first `&`. */
  function Cut(s: string): (string, string)
  {
    var i := IndexOf(s, '&');
    (s[..i], s[i..])
  }

  /** Splits `url` as `head + batch + sp + semester + cp + course`, taking the
      first `&` after `head` and the first `&` after `sp` as the separators. */
  function SplitQuery(url: string, head: string, sp: string, cp: string): Option<Selection>
  {
    match Strip(url, head)
    case None => None
    case Some(rest) =>
      var (batch, afterBatch) := Cut(rest);
      match Strip(afterBatch, sp)
      case None => None
      case Some(rest2) =>
        var (semester, afterSemester) := Cut(rest2);
        match Strip(afterSemester, cp)
        case None => None
        case Some(course) => Some(Selection(batch, semester, course))
  }

  /** Reads a report URL back into the selection it carries: the inverse of
      `ReportUrl`, splitting after each parameter name at the next `&`. */
  function ParseReportUrl(url: string): Option<Selection>
  {
    SplitQuery(url, LOOKER_BASE_URL + BATCH_PARAM, SEMESTER_PARAM, COURSE_PARAM)
  }

  /** The first `&` of `x + y` is the first of `y` when `x` has none. */
  lemma {:induction false} IndexOfAfter(x: string, y: string)
    requires '&' !in x
    ensures IndexOf(x + y, '&') == |x| + IndexOf(y, '&')
    decreases |x|
  {
    if x == [] {
      assert x + y == y;
    } else {
      assert x[0] in x;
      assert (x + y)[0] == x[0];
      assert (x + y)[1..] == x[1..] + y;
      assert '&' !in x[1..] by {
        forall k | 0 <= k < |x[1..]| ensures x[1..][k] != '&' {
          assert x[1..][k] == x[k + 1];
        }
      }
      IndexOfAfter(x[1..], y);
    }
  }

  lemma StripConcat(p: string, x: string)
    ensures Strip(p + x, p) == Some(x)
  {
    assert (p + x)[..|p|] == p;
    assert (p + x)[|p|..] == x;
  }

  lemma CutConcat(x: string, y: string)
    requires '&' !in x && y != [] && y[0] == '&'
    ensures Cut(x + y) == (x, y)
  {
    IndexOfAfter(x, y);
    assert (x + y)[..|x|] == x;
    assert (x + y)[|x|..] == y;
  }

  /** Splitting undoes the concatenation when the separators start with `&`
      and the first two values contain none. */
  lemma {:induction false} SplitQueryInverse(head: string, sp: string, cp: string, sel: Selection)
    requires sp != [] && sp[0] == '&' && cp != [] && cp[0] == '&'
    requires '&' !in sel.batch && '&' !in sel.semester
    ensures SplitQuery(head + sel.batch + sp + sel.semester + cp + sel.course, head, sp, cp) == Some(sel)
  {
    var tail2 := cp + sel.course;
    var tail1 := sp + (sel.semester + tail2);
    assert head + sel.batch + sp + sel.semester + cp + sel.course == head + (sel.batch + tail1);
    StripConcat(head, sel.batch + tail1);
    CutConcat(sel.batch, tail1);
    StripConcat(sp, sel.semester + tail2);
    CutConcat(sel.semester, tail2);
    StripConcat(cp, sel.course);
  }

  /** The selection survives the trip through the URL when the batch and the
      semester contain no `&` (the handler does not escape them). */
  lemma ReportUrlRoundTrip(sel: Selection)
    requires '&' !in sel.batch && '&' !in sel.semester
    ensures ParseReportUrl(ReportUrl(sel)) == Some(sel)
  {
    assert SEMESTER_PARAM[0] == '&' && COURSE_PARAM[0] == '&';
    SplitQueryInverse(LOOKER_BASE_URL + BATCH_PARAM, SEMESTER_PARAM, COURSE_PARAM, sel);
  }

  /** A POST of a form whose batch and semester contain no `&` yields a URL
      from which the submitted selection is recovered; a missing field is
      recovered as the text "None". */
  lemma PostUrlCarriesSelection(form: map<string, string>)
    requires '&' !in FormText(form, "batch_year") && '&' !in FormText(form, "semester")
    ensures LookerUrl(Post, form).Some?
    ensures ParseReportUrl(LookerUrl(Post, form).value) == Some(Selected(form))
    ensures "batch_year" in form ==> ParseReportUrl(LookerUrl(Post, form).value).value.batch == form["batch_year"]
    ensures "batch_year" !in form ==> ParseReportUrl(LookerUrl(Post, form).value).value.batch == "None"
    ensures "semester" in form ==> ParseReportUrl(LookerUrl(Post, form).value).value.semester == form["semester"]
    ensures "semester" !in form ==> ParseReportUrl(LookerUrl(Post, form).value).value.semester == "None"
    ensures "course" in form ==> ParseReportUrl(LookerUrl(Post, form).value).value.course == form["course"]
    ensures "course" !in form ==> ParseReportUrl(LookerUrl(Post, form).value).value.course == "None"
  {
    ReportUrlRoundTrip(Selected(form));
  }
}
