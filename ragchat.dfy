/**
 * The deterministic part of the RAG chat and quiz service: parsing a quiz
 * request into a topic and a difficulty, stripping code fences from the
 * model's reply, the generate-and-validate retry loop, the quiz pipeline and
 * the chat fallback. The retriever, the chat chain, the quiz model and
 * `json.loads` are parameters (oracles).
 */
module RagChat {
  import opened Wrappers
  import opened PyStr
  import opened Json

  // ---------------------------------------------------------------------------
  // parse_user_input: the difficulty
  // ---------------------------------------------------------------------------

  datatype Level = Easy | Medium | Hard

  /** The alternatives of the pattern `(easy|medium|hard)`. */
  function Keyword(l: Level): (w: string)
    ensures LowerWord(w) && w != []
  {
    match l
    case Easy => "easy"
    case Medium => "medium"
    case Hard => "hard"
  }

  /** The three difficulty strings the service hands to the prompt. */
  function Name(l: Level): string {
    match l
    case Easy => "Easy"
    case Medium => "Medium"
    case Hard => "Hard"
  }

  /** The keyword of `l` occurs at position `i` of `s`, ignoring case. */
  predicate KeywordMatch(s: string, i: nat, l: Level) {
    i + |Keyword(l)| <= |s| && EqualsIgnoreCase(s[i..i + |Keyword(l)|], Keyword(l))
  }

  /**
   * The alternative of `(easy|medium|hard)` that matches at `i`, tried in the
   * pattern's order. The keywords begin with different letters, so at most
   * one of them matches at any position.
   */
  function KeywordAt(s: string, i: nat): (r: Option<Level>)
    ensures r.Some? ==> KeywordMatch(s, i, r.value)
    ensures r.None? ==> forall l :: !KeywordMatch(s, i, l)
  {
    if KeywordMatch(s, i, Easy) then Some(Easy)
    else if KeywordMatch(s, i, Medium) then Some(Medium)
    else if KeywordMatch(s, i, Hard) then Some(Hard)
    else None
  }

  /** A keyword that matches at `i` is the one `KeywordAt` reports: no two alternatives match at one position. */
  lemma KeywordUnique(s: string, i: nat, l: Level)
    requires KeywordMatch(s, i, l)
    ensures KeywordAt(s, i) == Some(l)
  {
    assert LowerChar(s[i]) == Keyword(l)[0] by {
      assert s[i..i + |Keyword(l)|][0] == s[i];
    }
    forall l' | KeywordMatch(s, i, l') ensures l' == l {
      assert s[i..i + |Keyword(l')|][0] == s[i];
      assert Keyword(l')[0] == Keyword(l)[0];
    }
  }

  /** Whichever keyword matches at `i` is the one `KeywordAt` reports. */
  lemma KeywordAtReports(s: string, i: nat)
    ensures forall l :: KeywordMatch(s, i, l) ==> KeywordAt(s, i) == Some(l)
  {
    forall l | KeywordMatch(s, i, l) ensures KeywordAt(s, i) == Some(l) {
      KeywordUnique(s, i, l);
    }
  }

  /** `capitalize()` turns any spelling of a keyword into its difficulty name. */
  lemma CapitalizedKeyword(t: string, l: Level)
    requires EqualsIgnoreCase(t, Keyword(l))
    ensures Capitalize(t) == Name(l)
  {
    CapitalizeIgnoreCase(t, Keyword(l));
  }

  /**
   * `re.search(r"(easy|medium|hard)", s, re.IGNORECASE)` scanning from
   * `from`: the leftmost position where a keyword matches, with that keyword.
   */
  function Search(s: string, from: nat): (r: Option<(nat, Level)>)
    ensures r.Some? ==> from <= r.value.0 && KeywordAt(s, r.value.0) == Some(r.value.1)
    ensures forall p :: from <= p && (r.None? || p < r.value.0) ==> KeywordAt(s, p) == None
    decreases |s| - from
  {
    if from >= |s| then None
    else match KeywordAt(s, from)
      case Some(l) => Some((from, l))
      case None => Search(s, from + 1)
  }

  /**
   * The difficulty of a quiz request: the `capitalize()`d leftmost keyword
   * occurrence (inside a longer word too), or "Medium" when there is none.
   */
  function Difficulty(query: string): (d: string)
    ensures d == "Easy" || d == "Medium" || d == "Hard"
  {
    match Search(query, 0)
    case Some((p, l)) =>
      CapitalizedKeyword(query[p..p + |Keyword(l)|], l);
      Capitalize(query[p..p + |Keyword(l)|])
    case None => "Medium"
  }

  /** `re.search` finds the first position at which a keyword matches. */
  lemma {:induction false} SearchFinds(s: string, from: nat, p: nat, l: Level)
    requires from <= p && KeywordAt(s, p) == Some(l)
    requires forall q :: from <= q < p ==> KeywordAt(s, q) == None
    ensures Search(s, from) == Some((p, l))
    decreases p - from
  {
    if from < p {
      assert KeywordAt(s, from) == None;
      SearchFinds(s, from + 1, p, l);
    }
  }

  /** The leftmost keyword occurrence decides the difficulty. */
  lemma DifficultyOfLeftmost(query: string, p: nat, l: Level)
    requires KeywordMatch(query, p, l)
    requires forall q :: 0 <= q < p ==> KeywordAt(query, q) == None
    ensures Difficulty(query) == Name(l)
  {
    KeywordUnique(query, p, l);
    SearchFinds(query, 0, p, l);
    assert Difficulty(query) == Capitalize(query[p..p + |Keyword(l)|]);
    CapitalizedKeyword(query[p..p + |Keyword(l)|], l);
  }

  /** Without any keyword occurrence the difficulty is "Medium". */
  lemma DifficultyDefault(query: string)
    requires forall p :: 0 <= p < |query| ==> KeywordAt(query, p) == None
    ensures Difficulty(query) == "Medium"
  {
  }

  // ---------------------------------------------------------------------------
  // parse_user_input: the topic
  // ---------------------------------------------------------------------------

  /** `\b` at position `i`: a word character on exactly one side of it. */
  predicate Boundary(s: string, i: nat) {
    (0 < i <= |s| && IsWordChar(s[i - 1])) != (i < |s| && IsWordChar(s[i]))
  }

  /** `\b(easy|medium|hard)\b` matches at `i` (ignoring case), with its keyword. */
  function WholeWordAt(s: string, i: nat): (r: Option<Level>)
    ensures r.Some? ==> KeywordMatch(s, i, r.value) && Boundary(s, i) && Boundary(s, i + |Keyword(r.value)|)
    ensures forall l :: KeywordMatch(s, i, l) && Boundary(s, i) && Boundary(s, i + |Keyword(l)|) ==> r == Some(l)
  {
    KeywordAtReports(s, i);
    match KeywordAt(s, i)
    case Some(l) => if Boundary(s, i) && Boundary(s, i + |Keyword(l)|) then Some(l) else None
    case None => None
  }

  /**
   * `re.sub(r"\b(easy|medium|hard)\b", "", s, flags=re.IGNORECASE)` from
   * position `i` on: a left-to-right scan that deletes each whole-word
   * match and resumes after it. Boundaries are judged on the original `s`.
   */
  function RemoveKeywords(s: string, i: nat): (r: string)
    requires i <= |s|
    ensures |r| <= |s| - i
    decreases |s| - i
  {
    if i >= |s| then ""
    else match WholeWordAt(s, i)
      case Some(l) => RemoveKeywords(s, i + |Keyword(l)|)
      case None => [s[i]] + RemoveKeywords(s, i + 1)
  }

  /** Position `k` lies inside the whole-word keyword that starts at `j`. */
  predicate WithinWord(s: string, j: nat, k: nat) {
    WholeWordAt(s, j).Some? && j <= k < j + |Keyword(WholeWordAt(s, j).value)|
  }

  /** Position `k` lies inside some whole-word keyword occurrence. */
  ghost predicate Covered(s: string, k: nat) {
    exists j :: 0 <= j <= k && WithinWord(s, j, k)
  }

  /** Which positions of `s` lie inside some whole-word keyword occurrence. */
  ghost function Coverage(s: string): (m: seq<bool>)
    ensures |m| == |s| && forall k :: 0 <= k < |s| ==> m[k] == Covered(s, k)
  {
    seq(|s|, k requires 0 <= k < |s| => Covered(s, k))
  }

  /** The elements of `s[i..]` whose mask entry is false, in order. */
  function Unmasked<T>(s: seq<T>, m: seq<bool>, i: nat): seq<T>
    requires |m| == |s|
    decreases |s| - i
  {
    if i >= |s| then [] else (if m[i] then [] else [s[i]]) + Unmasked(s, m, i + 1)
  }

  /** A run of masked positions adds nothing. */
  lemma {:induction false} UnmaskedSkips<T>(s: seq<T>, m: seq<bool>, i: nat, e: nat)
    requires |m| == |s| && i <= e <= |s| && forall k :: i <= k < e ==> m[k]
    ensures Unmasked(s, m, i) == Unmasked(s, m, e)
    decreases e - i
  {
    if i == e {
    } else {
      assert Unmasked(s, m, i) == [] + Unmasked(s, m, i + 1);
      UnmaskedSkips(s, m, i + 1, e);
    }
  }

  /** The characters of `s[i..]` that lie in no whole-word keyword, in order. */
  ghost function Kept(s: string, i: nat): string {
    Unmasked(s, Coverage(s), i)
  }

  /** Every character of a keyword match is a word character. */
  lemma KeywordIsWord(s: string, i: nat, l: Level, k: nat)
    requires KeywordMatch(s, i, l) && i <= k < i + |Keyword(l)|
    ensures IsWordChar(s[k])
  {
    assert LowerChar(s[i..i + |Keyword(l)|][k - i]) == Keyword(l)[k - i];
  }

  /** Whole-word keyword occurrences never overlap. */
  lemma WholeWordsDisjoint(s: string, j: nat, j': nat)
    requires WholeWordAt(s, j).Some? && WholeWordAt(s, j').Some? && j < j'
    ensures j + |Keyword(WholeWordAt(s, j).value)| <= j'
  {
    var l := WholeWordAt(s, j).value;
    if j' < j + |Keyword(l)| {
      KeywordIsWord(s, j, l, j' - 1);
      KeywordIsWord(s, j', WholeWordAt(s, j').value, j');
      assert false;
    }
  }

  /** The positions from `i` to the end of the whole-word occurrence of `l` at `j` all drop out of `Kept`. */
  lemma KeptSkipsWord(s: string, j: nat, l: Level, i: nat)
    requires WholeWordAt(s, j) == Some(l) && j <= i <= j + |Keyword(l)|
    ensures Kept(s, i) == Kept(s, j + |Keyword(l)|)
  {
    var e := j + |Keyword(l)|;
    var m := Coverage(s);
    forall k | i <= k < e ensures m[k] {
      assert WithinWord(s, j, k);
    }
    UnmaskedSkips(s, m, i, e);
  }

  /** No whole-word occurrence that starts before `i` reaches past `i`. */
  ghost predicate Settled(s: string, i: nat) {
    forall j :: 0 <= j < i && WholeWordAt(s, j).Some? ==> j + |Keyword(WholeWordAt(s, j).value)| <= i
  }

  /** A whole-word match at `i` is dropped from `Kept`, and the scan is settled after it. */
  lemma KeptAfterMatch(s: string, i: nat, l: Level)
    requires Settled(s, i) && WholeWordAt(s, i) == Some(l)
    ensures i + |Keyword(l)| <= |s|
    ensures Kept(s, i) == Kept(s, i + |Keyword(l)|)
    ensures Settled(s, i + |Keyword(l)|)
  {
    var n := |Keyword(l)|;
    KeptSkipsWord(s, i, l, i);
    forall j | 0 <= j < i + n && WholeWordAt(s, j).Some?
      ensures j + |Keyword(WholeWordAt(s, j).value)| <= i + n
    {
      if i < j {
        WholeWordsDisjoint(s, i, j);
      }
    }
  }

  /** Without a match at `i`, a settled position is kept, and the next one is settled. */
  lemma KeptWithoutMatch(s: string, i: nat)
    requires i < |s| && Settled(s, i) && WholeWordAt(s, i).None?
    ensures Kept(s, i) == [s[i]] + Kept(s, i + 1)
    ensures Settled(s, i + 1)
  {
    assert !Covered(s, i);
    assert !Coverage(s)[i];
  }

  /** One deleting step of the scan agrees with `Kept`. */
  lemma KeepsAfterMatch(s: string, i: nat, l: Level)
    requires i < |s| && WholeWordAt(s, i) == Some(l) && i + |Keyword(l)| <= |s|
    requires Kept(s, i) == Kept(s, i + |Keyword(l)|)
    requires RemoveKeywords(s, i + |Keyword(l)|) == Kept(s, i + |Keyword(l)|)
    ensures RemoveKeywords(s, i) == Kept(s, i)
  {
  }

  /** One keeping step of the scan agrees with `Kept`. */
  lemma KeepsWithoutMatch(s: string, i: nat)
    requires i < |s| && WholeWordAt(s, i).None?
    requires Kept(s, i) == [s[i]] + Kept(s, i + 1)
    requires RemoveKeywords(s, i + 1) == Kept(s, i + 1)
    ensures RemoveKeywords(s, i) == Kept(s, i)
  {
  }

  /**
   * The scan from a settled position keeps exactly the characters that lie
   * in no whole-word keyword.
   */
  lemma {:induction false} RemoveKeywordsKeepsUncovered(s: string, i: nat)
    requires i <= |s| && Settled(s, i)
    ensures RemoveKeywords(s, i) == Kept(s, i)
    decreases |s| - i
  {
    if i == |s| {
    } else {
      match WholeWordAt(s, i)
      case Some(l) =>
        KeptAfterMatch(s, i, l);
        RemoveKeywordsKeepsUncovered(s, i + |Keyword(l)|);
        KeepsAfterMatch(s, i, l);
      case None =>
        KeptWithoutMatch(s, i);
        RemoveKeywordsKeepsUncovered(s, i + 1);
        KeepsWithoutMatch(s, i);
    }
  }

  /**
   * The topic of a quiz request: the query with every whole-word keyword
   * (any case) deleted, the other characters kept in order, then stripped.
   */
  function Topic(query: string): (t: string)
    ensures Trimmed(t)
    ensures t == Strip(Kept(query, 0))
  {
    RemoveKeywordsKeepsUncovered(query, 0);
    Strip(RemoveKeywords(query, 0))
  }

  /** `parse_user_input(query)`: the pair `(topic, difficulty)`. */
  function ParseUserInput(query: string): (r: (string, string))
    ensures Trimmed(r.0)
    ensures r.1 == "Easy" || r.1 == "Medium" || r.1 == "Hard"
  {
    (Topic(query), Difficulty(query))
  }

  /** The first three letters of some keyword occur at `p`, ignoring case. */
  predicate MayStartKeyword(s: string, p: nat) {
    p + 2 < |s| &&
    ((LowerChar(s[p]) == 'e' && LowerChar(s[p + 1]) == 'a' && LowerChar(s[p + 2]) == 's') ||
     (LowerChar(s[p]) == 'm' && LowerChar(s[p + 1]) == 'e' && LowerChar(s[p + 2]) == 'd') ||
     (LowerChar(s[p]) == 'h' && LowerChar(s[p + 1]) == 'a' && LowerChar(s[p + 2]) == 'r'))
  }

  /** A keyword can only match where its first three letters do. */
  lemma NotKeywordStart(s: string, p: nat)
    requires !MayStartKeyword(s, p)
    ensures KeywordAt(s, p) == None
  {
    if KeywordAt(s, p).Some? {
      KeywordLetters(s, p, KeywordAt(s, p).value);
    }
  }

  /** A keyword match fixes the first three letters, ignoring case. */
  lemma KeywordLetters(s: string, p: nat, l: Level)
    requires KeywordMatch(s, p, l)
    ensures p + 2 < |s|
    ensures LowerChar(s[p]) == Keyword(l)[0]
    ensures LowerChar(s[p + 1]) == Keyword(l)[1]
    ensures LowerChar(s[p + 2]) == Keyword(l)[2]
  {
    var w := Keyword(l);
    var t := s[p..p + |w|];
    assert t[0] == s[p] && t[1] == s[p + 1] && t[2] == s[p + 2];
    assert LowerChar(t[0]) == w[0] && LowerChar(t[1]) == w[1] && LowerChar(t[2]) == w[2];
  }

  /**
   * A keyword that matches in `t + u` at a position of `t` lies inside `t`
   * when `u` begins with a non-word character.
   */
  lemma KeywordMatchPrefix(t: string, u: string, p: nat, l: Level)
    requires p < |t| && KeywordMatch(t + u, p, l)
    requires u != [] && !IsWordChar(u[0])
    ensures KeywordMatch(t, p, l)
  {
    var n := |Keyword(l)|;
    if |t| < p + n {
      KeywordIsWord(t + u, p, l, |t|);
      assert false;
    }
    assert (t + u)[p..p + n] == t[p..p + n];
  }

  /** A stretch without whole-word matches is copied by the scan. */
  lemma {:induction false} RemoveKeywordsNone(s: string, i: nat, e: nat)
    requires i <= e <= |s|
    requires forall q :: i <= q < e ==> WholeWordAt(s, q) == None
    ensures RemoveKeywords(s, i) == s[i..e] + RemoveKeywords(s, e)
    decreases e - i
  {
    if i < e {
      assert WholeWordAt(s, i) == None;
      assert RemoveKeywords(s, i) == [s[i]] + RemoveKeywords(s, i + 1);
      RemoveKeywordsNone(s, i + 1, e);
      ConsAppend(s[i], s[i + 1..e], RemoveKeywords(s, e));
      SliceCons(s, i, e);
    } else {
      assert s[i..e] == [];
    }
  }

  /** In "<topic> <keyword>" with no keyword in the topic, no keyword starts before the last word. */
  lemma TrailingLevelFirst(t: string, l: Level, p: nat)
    requires forall q :: 0 <= q < |t| ==> KeywordAt(t, q) == None
    requires p <= |t|
    ensures KeywordAt(t + " " + Keyword(l), p) == None
  {
    var s := t + " " + Keyword(l);
    assert s == t + (" " + Keyword(l));
    if p < |t| {
      assert KeywordAt(t, p) == None;
      forall l' ensures !KeywordMatch(s, p, l') {
        if KeywordMatch(s, p, l') {
          KeywordMatchPrefix(t, " " + Keyword(l), p, l');
        }
      }
    } else {
      NotKeywordStart(s, p);
    }
  }

  /** The keyword after the space of "<topic> <keyword>" is a whole word. */
  lemma TrailingLevelWhole(t: string, l: Level)
    ensures WholeWordAt(t + " " + Keyword(l), |t| + 1) == Some(l)
  {
    var w := Keyword(l);
    var s := t + " " + w;
    var n := |t|;
    AppendSlices(t + " ", w);
    assert KeywordMatch(s, n + 1, l);
    assert s[n] == ' ';
    KeywordIsWord(s, n + 1, l, n + 1);
    assert Boundary(s, n + 1);
    KeywordIsWord(s, n + 1, l, |s| - 1);
    assert Boundary(s, |s|);
  }

  /**
   * A request "<topic> <keyword>" whose trimmed topic holds no keyword
   * parses to that topic and the keyword's difficulty.
   */
  lemma TrailingLevel(t: string, l: Level)
    requires Trimmed(t)
    requires forall p :: 0 <= p < |t| ==> KeywordAt(t, p) == None
    ensures ParseUserInput(t + " " + Keyword(l)) == (t, Name(l))
  {
    var s := t + " " + Keyword(l);
    TrailingRemoved(t, l);
    StripTrailingSpace(t);
    assert Topic(s) == t;
    forall p | 0 <= p <= |t| ensures KeywordAt(s, p) == None {
      TrailingLevelFirst(t, l, p);
    }
    TrailingLevelWhole(t, l);
    DifficultyOfLeftmost(s, |t| + 1, l);
  }

  /** Deleting the trailing keyword of "<topic> <keyword>" leaves "<topic> ". */
  lemma TrailingRemoved(t: string, l: Level)
    requires forall p :: 0 <= p < |t| ==> KeywordAt(t, p) == None
    ensures RemoveKeywords(t + " " + Keyword(l), 0) == t + " "
  {
    var h := t + " ";
    var s := h + Keyword(l);
    forall q | 0 <= q < |h| ensures WholeWordAt(s, q) == None {
      TrailingLevelFirst(t, l, q);
    }
    RemoveKeywordsNone(s, 0, |h|);
    TrailingRest(t, l);
    AppendSlices(h, Keyword(l));
    AppendSlices(h, "");
  }

  /** The trailing keyword is deleted and nothing follows it. */
  lemma TrailingRest(t: string, l: Level)
    ensures RemoveKeywords(t + " " + Keyword(l), |t| + 1) == ""
  {
    TrailingLevelWhole(t, l);
    var s := t + " " + Keyword(l);
    assert RemoveKeywords(s, |s|) == "";
  }

  /** A string with no position where a keyword's first three letters occur holds no keyword. */
  lemma NoKeywordIn(t: string)
    requires forall p :: 0 <= p < |t| ==> !MayStartKeyword(t, p)
    ensures forall p :: 0 <= p < |t| ==> KeywordAt(t, p) == None
  {
    forall p | 0 <= p < |t| ensures KeywordAt(t, p) == None {
      NotKeywordStart(t, p);
    }
  }

  /** "photosynthesis easy" parses to the topic "photosynthesis" at difficulty "Easy". */
  lemma ParsePhotosynthesisEasy()
    ensures ParseUserInput("photosynthesis easy") == ("photosynthesis", "Easy")
  {
    var t := "photosynthesis";
    assert "photosynthesis easy" == t + " " + Keyword(Easy);
    assert forall p :: 0 <= p < |t| ==> !MayStartKeyword(t, p);
    NoKeywordIn(t);
    TrailingLevel(t, Easy);
  }

  /** "machine learning medium" parses to the topic "machine learning" at difficulty "Medium". */
  lemma ParseMachineLearningMedium()
    ensures ParseUserInput("machine learning medium") == ("machine learning", "Medium")
  {
    var t := "machine learning";
    assert "machine learning medium" == t + " " + Keyword(Medium);
    assert forall p :: 0 <= p < |t| ==> !MayStartKeyword(t, p);
    NoKeywordIn(t);
    TrailingLevel(t, Medium);
  }

  /** A keyword inside a longer word sets the difficulty but stays in the topic. */
  lemma KeywordInsideWord()
    ensures ParseUserInput("hardware basics") == ("hardware basics", "Hard")
  {
    var s := "hardware basics";
    assert |s| == 15 && s[0] == 'h' && s[14] == 's';
    assert Trimmed(s);
    HardwareKept();
    StripTrimmed(s);
    assert Topic(s) == s;
    HardwareIsHard();
  }

  /** "hard" at the start of "hardware" is no whole word, so nothing is deleted. */
  lemma HardwareKept()
    ensures RemoveKeywords("hardware basics", 0) == "hardware basics"
  {
    var s := "hardware basics";
    forall q | 0 <= q < |s| ensures WholeWordAt(s, q) == None {
      if q > 0 {
        NotKeywordStart(s, q);
      } else {
        assert s[0..4] == "hard";
        assert KeywordMatch(s, 0, Hard);
        KeywordUnique(s, 0, Hard);
        assert !Boundary(s, 4);
      }
    }
    RemoveKeywordsNone(s, 0, |s|);
    AppendSlices(s, "");
  }

  /** "hard" at the start of "hardware" decides the difficulty. */
  lemma HardwareIsHard()
    ensures Difficulty("hardware basics") == "Hard"
  {
    var s := "hardware basics";
    assert s[0..4] == "hard";
    assert KeywordMatch(s, 0, Hard);
    DifficultyOfLeftmost(s, 0, Hard);
  }

  // ---------------------------------------------------------------------------
  // Code-fence stripping of the quiz reply
  // ---------------------------------------------------------------------------

  const OpenFence: string := "```json\n"
  const CloseFence: string := "\n```"

  /**
   * `re.sub(r"```json\n|\n```", "", s)` from position `i` on: a left-to-right
   * scan that tries the opening fence first, deletes a match and resumes
   * after it.
   */
  function RemoveFences(s: string, i: nat): (r: string)
    requires i <= |s|
    ensures |r| <= |s| - i
    decreases |s| - i
  {
    if i == |s| then ""
    else if MatchAt(s, i, OpenFence) then RemoveFences(s, i + |OpenFence|)
    else if MatchAt(s, i, CloseFence) then RemoveFences(s, i + |CloseFence|)
    else [s[i]] + RemoveFences(s, i + 1)
  }

  /** The reply text as it is handed to `json.loads`. */
  function StripFences(reply: string): (r: string)
    ensures Trimmed(r) && |r| <= |reply|
  {
    Strip(RemoveFences(reply, 0))
  }

  /** Text without either pattern passes through the scan unchanged. */
  lemma {:induction false} RemoveFencesFree(s: string, i: nat)
    requires i <= |s| && Free(s, OpenFence) && Free(s, CloseFence)
    ensures RemoveFences(s, i) == s[i..]
    decreases |s| - i
  {
    if i < |s| {
      assert !MatchAt(s, i, OpenFence) && !MatchAt(s, i, CloseFence);
      RemoveFencesFree(s, i + 1);
      assert s[i..] == [s[i]] + s[i + 1..];
    }
  }

  /** A reply with neither fence pattern is only stripped. */
  lemma FencesAbsent(reply: string)
    requires Free(reply, OpenFence) && Free(reply, CloseFence)
    ensures StripFences(reply) == Strip(reply)
  {
    RemoveFencesFree(reply, 0);
    assert reply[0..] == reply;
  }

  /** Inside a fenced payload, no opening fence matches before the closing fence. */
  lemma NoOpenInPayload(p: string, i: nat)
    requires Free(p, OpenFence) && !EndsWith(p, "```json")
    requires |OpenFence| <= i < |OpenFence| + |p|
    ensures !MatchAt(OpenFence + p + CloseFence, i, OpenFence)
  {
    var s := OpenFence + p + CloseFence;
    var e := |OpenFence| + |p|;
    if i + |OpenFence| <= e {
      MiddleSlice(OpenFence, p, CloseFence, i, i + |OpenFence|);
      assert !MatchAt(p, i - |OpenFence|, OpenFence);
    } else if e - i == 7 {
      MiddleSlice(OpenFence, p, CloseFence, i, e);
      assert s[i..e] != "```json";
      assert s[i..i + |OpenFence|][..7] == s[i..e];
    } else if i + |OpenFence| <= |s| {
      assert s[e] == '\n';
      assert s[i..i + |OpenFence|][e - i] == s[e];
    }
  }

  /** Inside a fenced payload, no closing fence matches before the closing fence itself. */
  lemma NoCloseInPayload(p: string, i: nat)
    requires Free(p, CloseFence)
    requires |OpenFence| <= i < |OpenFence| + |p|
    ensures !MatchAt(OpenFence + p + CloseFence, i, CloseFence)
  {
    var s := OpenFence + p + CloseFence;
    var e := |OpenFence| + |p|;
    if i + |CloseFence| <= e {
      MiddleSlice(OpenFence, p, CloseFence, i, i + |CloseFence|);
      assert !MatchAt(p, i - |OpenFence|, CloseFence);
    } else {
      assert s[e] == '\n';
      assert s[i..i + |CloseFence|][e - i] == s[e];
    }
  }

  /** The closing fence at the very end is deleted. */
  lemma RemoveFencesAtClose(t: string)
    ensures RemoveFences(t + CloseFence, |t|) == ""
  {
    var s := t + CloseFence;
    assert |s| == |t| + |CloseFence| && !MatchAt(s, |t|, OpenFence);
    AppendSlices(t, CloseFence);
    assert MatchAt(s, |t|, CloseFence);
    assert RemoveFences(s, |t|) == RemoveFences(s, |s|);
  }

  /** From inside the payload on, the scan copies the rest of the payload and deletes the closing fence. */
  lemma {:induction false} RemoveFencesPayload(p: string, i: nat)
    requires Free(p, OpenFence) && Free(p, CloseFence) && !EndsWith(p, "```json")
    requires |OpenFence| <= i <= |OpenFence| + |p|
    ensures RemoveFences(OpenFence + p + CloseFence, i) == p[i - |OpenFence|..]
    decreases |OpenFence| + |p| - i
  {
    var s := OpenFence + p + CloseFence;
    var e := |OpenFence| + |p|;
    if i == e {
      RemoveFencesAtClose(OpenFence + p);
      assert p[|p|..] == "";
    } else {
      NoOpenInPayload(p, i);
      NoCloseInPayload(p, i);
      assert RemoveFences(s, i) == [s[i]] + RemoveFences(s, i + 1);
      RemoveFencesPayload(p, i + 1);
      DropCons(p, i - |OpenFence|);
      assert s[i] == p[i - |OpenFence|];
    }
  }

  /**
   * A payload wrapped in both fences comes back stripped, provided it holds
   * neither pattern and does not end with "```json" (which would join the
   * closing fence's newline into an opening fence).
   */
  lemma FencedPayload(p: string)
    requires Free(p, OpenFence) && Free(p, CloseFence) && !EndsWith(p, "```json")
    ensures StripFences(OpenFence + p + CloseFence) == Strip(p)
  {
    var s := OpenFence + p + CloseFence;
    assert s[..|OpenFence|] == OpenFence;
    assert MatchAt(s, 0, OpenFence);
    RemoveFencesPayload(p, |OpenFence|);
    assert p[0..] == p;
  }

  /** Without the guard the payload is not recovered: "```json" loses its last four characters. */
  lemma FencedPayloadNeedsGuard()
    ensures Free("```json", OpenFence) && Free("```json", CloseFence)
    ensures StripFences(OpenFence + "```json" + CloseFence) == "```"
    ensures Strip("```json") == "```json"
  {
    var p := "```json";
    var s := OpenFence + p + CloseFence;
    assert s == "```json\n```json\n```";
    assert RemoveFences(s, 0) == "```" by {
      assert MatchAt(s, 0, OpenFence);
      assert s[8..16] == OpenFence;
      assert MatchAt(s, 8, OpenFence);
      assert RemoveFences(s, 19) == "";
      assert RemoveFences(s, 18) == "`";
      assert RemoveFences(s, 17) == "``";
      assert RemoveFences(s, 16) == "```";
    }
    StripTrimmed("```");
    StripTrimmed(p);
    assert Free(p, CloseFence) by {
      forall i | 0 <= i <= |p| ensures !MatchAt(p, i, CloseFence) {
        if i + |CloseFence| <= |p| {
          assert p[i] != '\n';
          assert p[i..i + |CloseFence|][0] == p[i];
        }
      }
    }
  }

  // ---------------------------------------------------------------------------
  // generate_mcqs: the generate-and-validate retry loop
  // ---------------------------------------------------------------------------

  /** The number of attempts of `for attempt in range(3)`. */
  const MaxAttempts: nat := 3

  /**
   * What the quiz prompt is filled from. The prompt template has no
   * `{context}` placeholder, so the retrieved text never reaches the model.
   */
  datatype McqPrompt = McqPrompt(topic: string, difficulty: string)

  /** One call of the quiz model: it raises, or it answers with this text. */
  datatype Reply = Raised | Content(text: string)

  /** One call of `json.loads`: a decode error, any other exception, or a value. */
  datatype Decoded = DecodeError | DecodeRaised | Parsed(value: JsonValue)

  /** The verdict on one attempt: return this value, try again, or leave the loop. */
  datatype Step = Accept(mcqs: JsonValue) | Retry | Abort

  /** What `generate_mcqs` returns and how often it called the quiz model. */
  datatype Generation = Generation(mcqs: JsonValue, invocations: nat)

  /**
   * The body of one attempt: the validation `isinstance(d, dict) and "mcqs"
   * in d and len(d["mcqs"]) > 0` on the decoded, fence-stripped reply, with
   * `JSONDecodeError` caught for a retry and every other exception (the
   * model's, the parser's, or `len` on an unsized value) leaving the loop.
   */
  function Classify(reply: Reply, parse: string -> Decoded): (st: Step)
    ensures st.Accept? ==> SizedNonEmpty(st.mcqs)
    ensures st.Accept? ==> reply.Content? && parse(StripFences(reply.text)).Parsed?
    ensures st.Accept? ==> var v := parse(StripFences(reply.text)).value;
      v.JObject? && "mcqs" in v.fields && v.fields["mcqs"] == st.mcqs
    ensures reply.Raised? ==> st == Abort
    ensures reply.Content? ==> var d := parse(StripFences(reply.text));
      && (d.DecodeError? ==> st == Retry)
      && (d.DecodeRaised? ==> st == Abort)
      && (d.Parsed? && !(d.value.JObject? && "mcqs" in d.value.fields) ==> st == Retry)
      && (d.Parsed? && d.value.JObject? && "mcqs" in d.value.fields ==>
            var mcqs := d.value.fields["mcqs"];
            && (Len(mcqs).None? ==> st == Abort)
            && (Len(mcqs) == Some(0) ==> st == Retry)
            && (SizedNonEmpty(mcqs) ==> st == Accept(mcqs)))
  {
    match reply
    case Raised => Abort
    case Content(text) =>
      match parse(StripFences(text))
      case DecodeError => Retry
      case DecodeRaised => Abort
      case Parsed(v) =>
        if v.JObject? && "mcqs" in v.fields then
          match Len(v.fields["mcqs"])
          case None => Abort
          case Some(n) => if n > 0 then Accept(v.fields["mcqs"]) else Retry
        else Retry
  }

  /** Every accepted value among the verdicts is sized and non-empty. */
  predicate AcceptsSized(vs: seq<Step>) {
    forall j :: 0 <= j < |vs| && vs[j].Accept? ==> SizedNonEmpty(vs[j].mcqs)
  }

  /** The verdicts on the three attempts the loop may make for a prompt. */
  function Verdicts(prompt: McqPrompt, invoke: (McqPrompt, nat) -> Reply, parse: string -> Decoded): (vs: seq<Step>)
    ensures |vs| == MaxAttempts
    ensures forall j :: 0 <= j < MaxAttempts ==> vs[j] == Classify(invoke(prompt, j), parse)
    ensures AcceptsSized(vs)
  {
    seq(MaxAttempts, j requires 0 <= j => Classify(invoke(prompt, j), parse))
  }

  /** What a deciding attempt makes the loop return. */
  function Returned(st: Step): JsonValue {
    if st.Accept? then st.mcqs else EmptyList
  }

  /**
   * The loop's outcome from attempt `attempt` on, given the verdicts: the
   * first verdict that is not a retry decides, and running out of attempts
   * gives `[]`.
   */
  function RunFrom(vs: seq<Step>, attempt: nat): (g: Generation)
    requires attempt <= |vs|
    requires AcceptsSized(vs)
    ensures g.invocations <= |vs| - attempt
    ensures attempt < |vs| ==> 1 <= g.invocations
    ensures g.mcqs == EmptyList || SizedNonEmpty(g.mcqs)
    decreases |vs| - attempt
  {
    if attempt == |vs| then Generation(EmptyList, 0)
    else if vs[attempt] == Retry then
      var rest := RunFrom(vs, attempt + 1);
      Generation(rest.mcqs, rest.invocations + 1)
    else Generation(Returned(vs[attempt]), 1)
  }

  /** The outcome of `generate_mcqs` for a prompt. */
  function McqOutcome(prompt: McqPrompt, invoke: (McqPrompt, nat) -> Reply, parse: string -> Decoded): (g: Generation)
    ensures 1 <= g.invocations <= MaxAttempts
    ensures g.mcqs == EmptyList || SizedNonEmpty(g.mcqs)
  {
    RunFrom(Verdicts(prompt, invoke, parse), 0)
  }

  /** Retries up to attempt `k` and a deciding verdict there fix the outcome. */
  lemma {:induction false} DecidedAt(vs: seq<Step>, from: nat, k: nat)
    requires AcceptsSized(vs)
    requires from <= k < |vs|
    requires forall j :: from <= j < k ==> vs[j] == Retry
    requires vs[k] != Retry
    ensures RunFrom(vs, from) == Generation(Returned(vs[k]), k - from + 1)
    decreases k - from
  {
    if from < k {
      DecidedAt(vs, from + 1, k);
    }
  }

  /** Retries on every remaining attempt give `[]` after one invocation each. */
  lemma {:induction false} ExhaustedFrom(vs: seq<Step>, from: nat)
    requires AcceptsSized(vs)
    requires from <= |vs|
    requires forall j :: from <= j < |vs| ==> vs[j] == Retry
    ensures RunFrom(vs, from) == Generation(EmptyList, |vs| - from)
    decreases |vs| - from
  {
    if from < |vs| {
      ExhaustedFrom(vs, from + 1);
    }
  }

  /**
   * Success path: the first attempt whose reply validates returns its
   * `"mcqs"` value unchanged, after exactly that many invocations.
   */
  lemma SuccessPath(prompt: McqPrompt, invoke: (McqPrompt, nat) -> Reply, parse: string -> Decoded, k: nat)
    requires k < MaxAttempts
    requires forall j :: 0 <= j < k ==> Classify(invoke(prompt, j), parse) == Retry
    requires Classify(invoke(prompt, k), parse).Accept?
    ensures McqOutcome(prompt, invoke, parse) == Generation(Classify(invoke(prompt, k), parse).mcqs, k + 1)
  {
    DecidedAt(Verdicts(prompt, invoke, parse), 0, k);
  }

  /** Retry path: three attempts that each ask for a retry give `[]` after three invocations. */
  lemma RetryExhaustion(prompt: McqPrompt, invoke: (McqPrompt, nat) -> Reply, parse: string -> Decoded)
    requires forall j :: 0 <= j < MaxAttempts ==> Classify(invoke(prompt, j), parse) == Retry
    ensures McqOutcome(prompt, invoke, parse) == Generation(EmptyList, MaxAttempts)
  {
    ExhaustedFrom(Verdicts(prompt, invoke, parse), 0);
  }

  /** Abort path: an unexpected exception ends the loop at once with `[]`. */
  lemma AbortPath(prompt: McqPrompt, invoke: (McqPrompt, nat) -> Reply, parse: string -> Decoded, k: nat)
    requires k < MaxAttempts
    requires forall j :: 0 <= j < k ==> Classify(invoke(prompt, j), parse) == Retry
    requires Classify(invoke(prompt, k), parse) == Abort
    ensures McqOutcome(prompt, invoke, parse) == Generation(EmptyList, k + 1)
  {
    DecidedAt(Verdicts(prompt, invoke, parse), 0, k);
  }

  /**
   * The shape of every run: all attempts before the last asked for a retry;
   * the last one's accepted value is returned, any other verdict returns
   * `[]`, and a retry is last only when the attempts ran out.
   */
  lemma RunShape(vs: seq<Step>)
    requires AcceptsSized(vs) && |vs| == MaxAttempts
    ensures var g := RunFrom(vs, 0);
      && (forall j :: 0 <= j < g.invocations - 1 ==> vs[j] == Retry)
      && (vs[g.invocations - 1].Accept? ==> g.mcqs == vs[g.invocations - 1].mcqs)
      && (!vs[g.invocations - 1].Accept? ==> g.mcqs == EmptyList)
      && (vs[g.invocations - 1] == Retry ==> g.invocations == MaxAttempts)
  {
    if vs[0] != Retry {
      DecidedAt(vs, 0, 0);
    } else if vs[1] != Retry {
      DecidedAt(vs, 0, 1);
    } else if vs[2] != Retry {
      DecidedAt(vs, 0, 2);
    } else {
      ExhaustedFrom(vs, 0);
    }
  }

  /**
   * What a run of `generate_mcqs` looks like from outside: one to three
   * invocations, all before the last asking for a retry; the last one's
   * accepted value is returned, any other verdict returns `[]`, and a retry
   * is last only when the attempts ran out.
   */
  predicate Shaped(g: Generation, prompt: McqPrompt, invoke: (McqPrompt, nat) -> Reply, parse: string -> Decoded) {
    && 1 <= g.invocations <= MaxAttempts
    && (forall j :: 0 <= j < g.invocations - 1 ==> Classify(invoke(prompt, j), parse) == Retry)
    && var last := Classify(invoke(prompt, g.invocations - 1), parse);
      && (last.Accept? ==> g.mcqs == last.mcqs)
      && (!last.Accept? ==> g.mcqs == EmptyList)
      && (last == Retry ==> g.invocations == MaxAttempts)
  }

  /** Every outcome of `generate_mcqs` has that shape. */
  lemma McqOutcomeShape(prompt: McqPrompt, invoke: (McqPrompt, nat) -> Reply, parse: string -> Decoded)
    ensures Shaped(McqOutcome(prompt, invoke, parse), prompt, invoke, parse)
  {
    RunShape(Verdicts(prompt, invoke, parse));
  }

  /** A model that always answers undecodable text is asked three times and yields `[]`. */
  lemma AlwaysInvalidJson(prompt: McqPrompt, invoke: (McqPrompt, nat) -> Reply, parse: string -> Decoded)
    requires forall j :: 0 <= j < MaxAttempts ==> invoke(prompt, j).Content?
    requires forall t :: parse(t) == DecodeError
    ensures McqOutcome(prompt, invoke, parse) == Generation(EmptyList, MaxAttempts)
  {
    RetryExhaustion(prompt, invoke, parse);
  }

  /**
   * The `try` block of one attempt: invoke the model, strip the fences off
   * its reply, decode it and validate the result. An exception other than
   * `JSONDecodeError` (from the model, the parser, or `len` on an unsized
   * value) is reported as `Abort`.
   */
  method Attempt(prompt: McqPrompt, attempt: nat, invoke: (McqPrompt, nat) -> Reply, parse: string -> Decoded)
    returns (st: Step)
    ensures st == Classify(invoke(prompt, attempt), parse)
  {
    var reply := invoke(prompt, attempt);
    if reply.Raised? {
      return Abort;
    }
    var responseText := StripFences(reply.text);
    var decoded := parse(responseText);
    if decoded.DecodeError? {
      return Retry;
    }
    if decoded.DecodeRaised? {
      return Abort;
    }
    var mcqsData := decoded.value;
    if mcqsData.JObject? && "mcqs" in mcqsData.fields {
      var size := Len(mcqsData.fields["mcqs"]);
      if size.None? {
        return Abort;
      }
      if size.value > 0 {
        return Accept(mcqsData.fields["mcqs"]);
      }
    }
    return Retry;
  }

  /**
   * `generate_mcqs(topic, text, difficulty)`: up to three attempts; the
   * first accepted value is returned, an aborted attempt leaves the loop,
   * and running out of attempts gives `[]`. The `text` argument is accepted
   * and unused, as in the prompt template.
   */
  method GenerateMcqs(topic: string, text: string, difficulty: string,
                      invoke: (McqPrompt, nat) -> Reply, parse: string -> Decoded)
    returns (mcqs: JsonValue, invocations: nat)
    ensures Generation(mcqs, invocations) == McqOutcome(McqPrompt(topic, difficulty), invoke, parse)
    ensures Shaped(Generation(mcqs, invocations), McqPrompt(topic, difficulty), invoke, parse)
  {
    var prompt := McqPrompt(topic, difficulty);
    ghost var vs := Verdicts(prompt, invoke, parse);
    mcqs, invocations := EmptyList, 0;
    var attempt := 0;
    while attempt < MaxAttempts
      invariant attempt <= MaxAttempts && invocations == attempt
      invariant forall j :: 0 <= j < attempt ==> vs[j] == Retry
    {
      invocations := invocations + 1;
      var st := Attempt(prompt, attempt, invoke, parse);
      assert vs[attempt] == st;
      if st.Accept? {
        mcqs := st.mcqs;
        DecidedAt(vs, 0, attempt);
        McqOutcomeShape(prompt, invoke, parse);
        return;
      }
      if st == Abort {
        DecidedAt(vs, 0, attempt);
        break;
      }
      attempt := attempt + 1;
    }
    if attempt == MaxAttempts {
      ExhaustedFrom(vs, 0);
    }
    McqOutcomeShape(prompt, invoke, parse);
  }

  // ---------------------------------------------------------------------------
  // get_rag_quiz and get_rag_response
  // ---------------------------------------------------------------------------

  /**
   * The context built from the retrieved pages: their texts joined by single
   * spaces, in retrieval order, so that pages without spaces can be split
   * back out of it.
   */
  function ExtractedText(pages: seq<string>): (r: string)
    ensures pages == [] ==> r == ""
    ensures |pages| >= 1 ==> |pages[0]| <= |r| && r[..|pages[0]|] == pages[0]
    ensures |pages| >= 2 ==> |pages[0]| < |r| && r[|pages[0]|] == ' '
  {
    if |pages| >= 2 then
      assert Join(' ', pages) == pages[0] + [' '] + Join(' ', pages[1..]);
      Join(' ', pages)
    else
      Join(' ', pages)
  }

  /** Pages without spaces split back out of the context. */
  lemma ContextRecoverable(pages: seq<string>)
    requires |pages| >= 1 && forall k :: 0 <= k < |pages| ==> ' ' !in pages[k]
    ensures Split(' ', ExtractedText(pages)) == pages
  {
    SplitJoin(' ', pages);
  }

  /**
   * `get_rag_quiz(query)`: the retriever is asked for the parsed topic; no
   * pages give `[]` without invoking the model; otherwise the loop runs on
   * the parsed topic and difficulty.
   */
  method GetRagQuiz(query: string, retrieve: string -> seq<string>,
                    invoke: (McqPrompt, nat) -> Reply, parse: string -> Decoded)
    returns (mcqs: JsonValue, invocations: nat)
    ensures retrieve(Topic(query)) == [] ==> mcqs == EmptyList && invocations == 0
    ensures retrieve(Topic(query)) != [] ==>
      Generation(mcqs, invocations) == McqOutcome(McqPrompt(Topic(query), Difficulty(query)), invoke, parse)
    ensures mcqs == EmptyList || SizedNonEmpty(mcqs)
  {
    var (topic, difficulty) := ParseUserInput(query);
    var relevantDocs := retrieve(topic);
    if relevantDocs == [] {
      return EmptyList, 0;
    }
    var extractedText := ExtractedText(relevantDocs);
    var mcqList;
    mcqList, invocations := GenerateMcqs(topic, extractedText, difficulty, invoke, parse);
    SizedNonEmptyIsTruthy(mcqList);
    if !Truthy(mcqList) {
      return EmptyList, invocations;
    }
    mcqs := mcqList;
  }

  /** The fixed reply when the chain gives no usable answer. */
  const NoAnswer: string := "I couldn't find an answer from your documents."

  /**
   * `get_rag_response(user_input)`: the chain is invoked on the input
   * unchanged; a missing or blank `"answer"` gives the fixed reply, any other
   * answer is returned as it is, unstripped.
   */
  function GetRagResponse(userInput: string, chain: string -> Option<string>): (r: string)
    ensures chain(userInput).None? ==> r == NoAnswer
    ensures chain(userInput).Some? && AllSpace(chain(userInput).value) ==> r == NoAnswer
    ensures chain(userInput).Some? && !AllSpace(chain(userInput).value) ==> r == chain(userInput).value
  {
    var response := chain(userInput);
    if response.None? || Strip(response.value) == "" then NoAnswer else response.value
  }
}
