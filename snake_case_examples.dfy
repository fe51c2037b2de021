/** snakeCase on resource-type labels such as Insomnia's `RequestGroup`,
    on spelled-out variants ("Request Group", "HTTP Request") and on small
    inputs that show each rule of the normaliser. Each lemma takes its input as a parameter equal to the
    label; longer labels are cut into the pieces the general lemmas of
    `SnakeCasing` speak about. */
module SnakeCaseExamples {
  import opened SnakeCasing

  lemma Request(s: string)
    requires s == "Request"
    ensures SnakeCase(s) == "request"
  {
    SnakeCaseIsNormalized(s);
    assert s[0] == 'R' && s[1..] == "equest";
    NormalizedFixed(s[1..], true);
  }

  lemma Group(s: string)
    requires s == "Group"
    ensures SnakeCase(s) == "group"
  {
    SnakeCaseIsNormalized(s);
    assert s[0] == 'G' && s[1..] == "roup";
    NormalizedFixed(s[1..], true);
  }

  /** An acronym is split letter by letter. */
  lemma Acronym(s: string)
    requires s == "HTTP"
    ensures SnakeCase(s) == "h_t_t_p"
  {
    SnakeCaseIsNormalized(s);
    assert Normalized("HTTP", false) == "h_t_t_p";
  }

  /** "Request Group" becomes "request_group". */
  lemma RequestGroup(s: string)
    requires s == "Request Group"
    ensures SnakeCase(s) == "request_group"
  {
    var x, y := s[..7], s[8..];
    assert x == "Request" && y == "Group" && s == x + " " + y;
    SeparatorRun(x, " ", y);
    Request(x);
    Group(y);
  }

  /** "RequestGroup", Insomnia's own spelling of the folder type, becomes
      "request_group": the capital after a word character starts a new
      fragment. */
  lemma RequestGroupLabel(s: string)
    requires s == "RequestGroup"
    ensures SnakeCase(s) == "request_group"
  {
    var x, y := s[..7], s[7..];
    assert x == "Request" && y == "Group" && s == x + y;
    UpperBoundary(x, y);
    Request(x);
    Group(y);
  }

  /** "HTTPRequest" becomes "h_t_t_p_request": every capital after a word
      character starts a new fragment. */
  lemma AcronymRequest(s: string)
    requires s == "HTTPRequest"
    ensures SnakeCase(s) == "h_t_t_p_request"
  {
    var x, y := s[..4], s[4..];
    assert x == "HTTP" && y == "Request" && s == x + y;
    UpperBoundary(x, y);
    Acronym(x);
    Request(y);
  }

  /** "HTTP Request" becomes "h_t_t_p_request" as well: the acronym is split
      letter by letter and the space becomes "_". */
  lemma HttpRequest(s: string)
    requires s == "HTTP Request"
    ensures SnakeCase(s) == "h_t_t_p_request"
  {
    var x, y := s[..4], s[5..];
    assert x == "HTTP" && y == "Request" && s == x + " " + y;
    SeparatorRun(x, " ", y);
    Acronym(x);
    Request(y);
  }

  lemma Empty(s: string)
    requires s == ""
    ensures SnakeCase(s) == ""
  {
    SnakeCaseIsNormalized(s);
  }

  /** A run of separators collapses to one underscore. */
  lemma SeparatorRuns(s: string)
    requires s == "a--b"
    ensures SnakeCase(s) == "a_b"
  {
    SnakeCaseIsNormalized(s);
    assert Normalized("a--b", false) == "a_b";
  }

  /** "a---b   c" becomes "a_b_c". */
  lemma LongSeparatorRuns(s: string)
    requires s == "a---b   c"
    ensures SnakeCase(s) == "a_b_c"
  {
    var ab := s[..5];
    assert ab == "a---b" && s == ab + "   " + "c";
    assert ab == "a" + "---" + "b";
    SeparatorRun("a", "---", "b");
    SeparatorRun(ab, "   ", "c");
    SnakeCaseIsNormalized("a");
    SnakeCaseIsNormalized("b");
    SnakeCaseIsNormalized("c");
  }

  /** A leading separator is kept as a leading underscore. */
  lemma LeadingSpace(s: string)
    requires s == " a"
    ensures SnakeCase(s) == "_a"
  {
    SnakeCaseIsNormalized(s);
    assert Normalized(" a", false) == "_a";
  }

  /** An underscore is a word character, so a capital after it gets a second one. */
  lemma UnderscoreCapital(s: string)
    requires s == "a_B"
    ensures SnakeCase(s) == "a__b"
  {
    SnakeCaseIsNormalized(s);
    assert Normalized("a_B", false) == "a__b";
  }

  /** A digit is a word character too. */
  lemma DigitCapital(s: string)
    requires s == "a1B"
    ensures SnakeCase(s) == "a1_b"
  {
    SnakeCaseIsNormalized(s);
    assert Normalized("a1B", false) == "a1_b";
  }
}
