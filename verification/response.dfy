/** response.go: the corpus of stored error bodies, keyed by file name,
    and `GetResponseReader`, which looks up the exact name `{code}.{ext}`
    and falls back to the class name `{code/100}xx.{ext}`. Scanning the
    directory into the corpus is not modelled: the corpus is a given map,
    which the lookup only reads. */
module ResponseCorpus {
  import opened Wrappers
  import opened GoText

  /** The outcome of `GetResponseReader`: the body and the name it was
      stored under, or nothing (Go's nil reader and empty name). */
  datatype Lookup = Found(body: Bytes, name: string) | Missing

  /** `fmt.Sprintf("%d.%s", code, ext)`. */
  function ExactKey(code: int, ext: string): string {
    FormatInt(code) + "." + ext
  }

  /** `fmt.Sprintf("%dxx.%s", code/100, ext)`, with Go's truncating
      division. */
  function ClassKey(code: int, ext: string): string {
    FormatInt(Div100(code)) + "xx." + ext
  }

  /** An exact name cuts at its first `.` into the printed code and the
      extension, and the code reads back from it. */
  lemma ExactKeyReadsBack(code: int, ext: string)
    requires InIntRange(code)
    ensures Cut(ExactKey(code, ext), '.') == Cutting(FormatInt(code), ext, true)
    ensures Atoi(Cut(ExactKey(code, ext), '.').before) == Some(code)
  {
    var printed := FormatInt(code);
    assert '.' !in printed;
    CutAt(printed, '.', ext);
    AtoiFormatInt(code);
  }

  /** A class name cuts at its first `x` into the printed class and
      `x.{ext}`, and the class reads back from it. */
  lemma ClassKeyReadsBack(code: int, ext: string)
    requires InIntRange(code)
    ensures Cut(ClassKey(code, ext), 'x') == Cutting(FormatInt(Div100(code)), "x." + ext, true)
    ensures Atoi(Cut(ClassKey(code, ext), 'x').before) == Some(Div100(code))
  {
    var printed := FormatInt(Div100(code));
    assert 'x' !in printed;
    assert ClassKey(code, ext) == printed + ['x'] + ("x." + ext);
    CutAt(printed, 'x', "x." + ext);
    AtoiFormatInt(Div100(code));
  }

  /** `GetResponseReader`: the exact name first, then the class name,
      then nothing. Whatever it finds is stored in the corpus under the
      name it returns. */
  function GetResponseReader(responses: map<string, Bytes>, code: int, ext: string): (r: Lookup)
    ensures r.Found? ==> r.name in responses && r.body == responses[r.name]
    ensures r.Found? ==> r.name == ExactKey(code, ext) || r.name == ClassKey(code, ext)
    ensures ExactKey(code, ext) in responses ==> r == Found(responses[ExactKey(code, ext)], ExactKey(code, ext))
    ensures ExactKey(code, ext) !in responses && ClassKey(code, ext) in responses ==>
              r == Found(responses[ClassKey(code, ext)], ClassKey(code, ext))
    ensures r.Missing? <==> ExactKey(code, ext) !in responses && ClassKey(code, ext) !in responses
  {
    var file := ExactKey(code, ext);
    if file in responses then Found(responses[file], file)
    else
      var classFile := ClassKey(code, ext);
      if classFile in responses then Found(responses[classFile], classFile)
      else Missing
  }

  /** The two names are never the same string, so the fallback is a
      genuinely different entry: an `x` sits where the exact name has a
      digit, a sign or its `.`. */
  lemma ExactAndClassKeysDiffer(code: int, ext: string)
    ensures ExactKey(code, ext) != ClassKey(code, ext)
  {
    var a, b := FormatInt(code), FormatInt(Div100(code));
    var exact, classKey := ExactKey(code, ext), ClassKey(code, ext);
    assert classKey[|b|] == 'x';
    if |b| < |a| {
      assert exact[|b|] == a[|b|];
    } else if |b| == |a| {
      assert exact[|a|] == '.';
    } else {
      assert exact[|a|] == '.' && classKey[|a|] == b[|a|];
    }
  }

  /** The name a body was served under determines the code and the
      extension it was served for. */
  lemma ExactKeyInjective(code1: int, ext1: string, code2: int, ext2: string)
    requires ExactKey(code1, ext1) == ExactKey(code2, ext2)
    ensures code1 == code2 && ext1 == ext2
  {
    var a, b := FormatInt(code1), FormatInt(code2);
    var key := ExactKey(code1, ext1);
    assert '.' !in a && '.' !in b;
    assert key == a + ['.'] + ext1 == b + ['.'] + ext2;
    CutAt(a, '.', ext1);
    CutAt(b, '.', ext2);
    FormatIntInjective(code1, code2);
  }

  /** For the conventional status codes the class is the hundreds digit,
      e.g. `503` falls back to `5xx.{ext}`. */
  lemma ClassKeyOfStatus(code: int, ext: string)
    requires 100 <= code <= 999
    ensures ClassKey(code, ext) == [DigitChar(code / 100)] + "xx." + ext
  {
  }

  /** For a negative code the class is truncated toward zero: `-150`
      falls back to `-1xx.{ext}`, where Euclidean division would give
      `-2xx.{ext}`. */
  lemma ClassKeyOfNegativeCode(ext: string)
    ensures ClassKey(-150, ext) == "-1xx." + ext
  {
    Div100TruncatesTowardZero();
    assert FormatInt(-1) == "-" + FormatNat(1) == "-1";
  }

  /** An example: with `404.html` and `5xx.html` stored, code 404
      is served from `404.html`, 503 from `5xx.html`, and 418 finds
      nothing. */
  lemma HtmlCorpusExample(notFoundPage: Bytes, serverErrorPage: Bytes)
    ensures var responses := map["404.html" := notFoundPage, "5xx.html" := serverErrorPage];
            && GetResponseReader(responses, 404, "html") == Found(notFoundPage, "404.html")
            && GetResponseReader(responses, 503, "html") == Found(serverErrorPage, "5xx.html")
            && GetResponseReader(responses, 418, "html") == Missing
  {
    assert FormatInt(404) == "404" && FormatInt(503) == "503" && FormatInt(418) == "418";
    assert FormatInt(5) == "5" && FormatInt(4) == "4";
    assert ExactKey(404, "html") == "404.html";
    assert ExactKey(503, "html") == "503.html" && ClassKey(503, "html") == "5xx.html";
    assert ExactKey(418, "html") == "418.html" && ClassKey(418, "html") == "4xx.html";
  }
}
