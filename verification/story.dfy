/** `findStory` (handlers/issues.go): the first reference to the story repository in an
    issue body, turned into the API URL of the story issue.

    The Go code compiles `https://github.com/R/issues/(\d)|R#(\d)` with the story repository
    `R` pasted in, and takes the leftmost match. With `R` free of metacharacters, the pattern
    has two fixed-length alternatives, so the leftmost-first match is found by trying each
    position in turn and, at one position, the URL alternative before the shorthand. The
    unescaped `.` of `github.com` matches any character except a newline. */
module Story {
  import opened Results
  import opened Text

  const UrlHead: string := "https://github"
  const UrlDomain: string := "com/"
  const UrlPath: string := "/issues/"
  const ApiPrefix: string := "https://api.github.com/repos/"

  /** The URL alternative `https://github.com/R/issues/\d` matches at `i`. */
  predicate UrlRefAt(repo: string, body: string, i: nat) {
    && i + |repo| + 28 <= |body|
    && body[i..i + 14] == UrlHead
    && body[i + 14] != '\n'
    && body[i + 15..i + 19] == UrlDomain
    && body[i + 19..i + 19 + |repo|] == repo
    && body[i + 19 + |repo|..i + 27 + |repo|] == UrlPath
    && IsDigit(body[i + 27 + |repo|])
  }

  /** The shorthand alternative `R#\d` matches at `i`. */
  predicate ShortRefAt(repo: string, body: string, i: nat) {
    && i + |repo| + 2 <= |body|
    && body[i..i + |repo|] == repo
    && body[i + |repo|] == '#'
    && IsDigit(body[i + |repo| + 1])
  }

  predicate RefAt(repo: string, body: string, i: nat) {
    UrlRefAt(repo, body, i) || ShortRefAt(repo, body, i)
  }

  /** The one digit the capture group of the matching alternative holds; the URL
      alternative wins when both match at the same position. */
  function RefDigit(repo: string, body: string, i: nat): (d: char)
    requires RefAt(repo, body, i)
    ensures IsDigit(d)
  {
    if UrlRefAt(repo, body, i) then body[i + 27 + |repo|] else body[i + |repo| + 1]
  }

  /** The API URL of story issue `digit` in `repo`. */
  function StoryApiUrl(repo: string, digit: char): (u: string) {
    ApiPrefix + repo + UrlPath + [digit]
  }

  /** The leftmost position at or after `i` where a reference starts. */
  function LeftmostRef(repo: string, body: string, i: nat): (r: Option<nat>)
    requires i <= |body|
    ensures r.Some? ==> i <= r.value < |body| && RefAt(repo, body, r.value)
    ensures r.Some? ==> forall j :: i <= j < r.value ==> !RefAt(repo, body, j)
    ensures r.None? ==> forall j :: i <= j < |body| ==> !RefAt(repo, body, j)
    decreases |body| - i
  {
    if i == |body| then None
    else if RefAt(repo, body, i) then Some(i)
    else LeftmostRef(repo, body, i + 1)
  }

  /** `findStory(storyRepo, body)`: the empty string when the body holds no reference to
      the story repository, otherwise the API URL built from the first one. */
  function FindStory(storyRepo: string, body: string): (r: string)
    requires RegexLiteral(storyRepo)
    ensures r == "" <==> forall i :: 0 <= i < |body| ==> !RefAt(storyRepo, body, i)
    ensures r != "" ==>
      exists i :: 0 <= i < |body| && RefAt(storyRepo, body, i)
        && (forall j :: 0 <= j < i ==> !RefAt(storyRepo, body, j))
        && r == StoryApiUrl(storyRepo, RefDigit(storyRepo, body, i))
  {
    match LeftmostRef(storyRepo, body, 0)
    case None => ""
    case Some(i) => StoryApiUrl(storyRepo, RefDigit(storyRepo, body, i))
  }

  lemma StoryApiUrlShape(repo: string, d: char)
    ensures var r := StoryApiUrl(repo, d);
      && |r| == |ApiPrefix| + |repo| + |UrlPath| + 1
      && r[..|ApiPrefix|] == ApiPrefix
      && r[|ApiPrefix|..|ApiPrefix| + |repo|] == repo
      && r[|ApiPrefix| + |repo|..|r| - 1] == UrlPath
      && r[|r| - 1] == d
  {
  }

  /** A found story URL is the API prefix, the story repository, `/issues/` and one digit. */
  lemma FoundStoryShape(storyRepo: string, body: string)
    requires RegexLiteral(storyRepo)
    requires FindStory(storyRepo, body) != ""
    ensures var r := FindStory(storyRepo, body);
      && |r| == |ApiPrefix| + |storyRepo| + |UrlPath| + 1
      && r[..|ApiPrefix|] == ApiPrefix
      && r[|ApiPrefix|..|ApiPrefix| + |storyRepo|] == storyRepo
      && r[|ApiPrefix| + |storyRepo|..|r| - 1] == UrlPath
      && IsDigit(r[|r| - 1])
  {
    var i := LeftmostRef(storyRepo, body, 0).value;
    StoryApiUrlShape(storyRepo, RefDigit(storyRepo, body, i));
  }
}

/** Story references on concrete issue bodies. */
module StoryExamples {
  import opened Text
  import opened Story

  /** A shorthand reference `repo#d…` preceded by text that holds no `#` and, together with
      what follows, is too short to hold a URL reference resolves to the digit right after
      the `#`; further digits are ignored. */
  lemma ShorthandResolves(repo: string, prefix: string, tail: string)
    requires RegexLiteral(repo)
    requires |tail| >= 2 && tail[0] == '#' && IsDigit(tail[1])
    requires forall k :: 0 <= k < |prefix + repo| ==> (prefix + repo)[k] != '#'
    requires |prefix| + |tail| < 28
    ensures FindStory(repo, prefix + repo + tail) == StoryApiUrl(repo, tail[1])
  {
    var body := prefix + repo + tail;
    var i := |prefix|;
    assert body[i..i + |repo|] == repo;
    assert body[i + |repo|] == '#' && body[i + |repo| + 1] == tail[1];
    assert RefAt(repo, body, i) && !UrlRefAt(repo, body, i);
    forall j | 0 <= j < i ensures !RefAt(repo, body, j) {
      assert body[j + |repo|] == (prefix + repo)[j + |repo|];
    }
    var r := LeftmostRef(repo, body, 0);
    assert r.Some? && r.value == i;
  }

  /** A body that starts with a URL reference resolves to that URL's digit; the character
      between `github` and `com` may be any but a newline. */
  lemma UrlResolves(repo: string, dot: string, tail: string)
    requires RegexLiteral(repo)
    requires |dot| == 1 && dot[0] != '\n'
    requires |tail| >= 1 && IsDigit(tail[0])
    ensures FindStory(repo, UrlHead + dot + UrlDomain + repo + UrlPath + tail) == StoryApiUrl(repo, tail[0])
  {
    var body := UrlHead + dot + UrlDomain + repo + UrlPath + tail;
    assert body[0..14] == UrlHead;
    assert body[14] == dot[0];
    assert body[15..19] == UrlDomain;
    assert body[19..19 + |repo|] == repo;
    assert body[19 + |repo|..27 + |repo|] == UrlPath;
    assert body[27 + |repo|] == tail[0];
    assert RefAt(repo, body, 0) && UrlRefAt(repo, body, 0);
    var r := LeftmostRef(repo, body, 0);
    assert r.Some? && r.value == 0;
  }

  const Stories: string := "acme/stories"

  /** Only the first digit of the number is captured: `acme/stories#42` resolves to story 4. */
  lemma ShorthandKeepsFirstDigit()
    ensures FindStory(Stories, "fixes " + Stories + "#42") == StoryApiUrl(Stories, '4')
  {
    ShorthandResolves(Stories, "fixes ", "#42");
  }

  /** The unescaped `.` of `github.com` lets any character but a newline stand in for the
      dot: `https://github_com/acme/stories/issues/7` refers to story 7. */
  lemma UnescapedDotMatchesAnyChar()
    ensures FindStory(Stories, UrlHead + "_" + UrlDomain + Stories + UrlPath + "7") == StoryApiUrl(Stories, '7')
  {
    UrlResolves(Stories, "_", "7");
  }

  /** A reference to another repository is not a reference to the story repository. */
  lemma OtherRepositoryIgnored()
    ensures FindStory(Stories, "acme/other#3") == ""
  {
    var repo, body := Stories, "acme/other#3";
    forall j | 0 <= j < |body| ensures !RefAt(repo, body, j) {
      assert j + |repo| + 2 > |body|;
    }
  }
}
