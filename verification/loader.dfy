/**
 * The question-set loader: fetch the bank (with the user's token when one
 * can be had), keep the requested domain, refuse an empty set, and put
 * what remains in a random order.
 */
module QuestionLoader {
  import opened Wrappers

  datatype Question = Question(
    id: int,
    domainType: string,
    question: string,
    optionA: string,
    optionB: string,
    optionC: string,
    optionD: string,
    correctAnswer: string,
    explanation: string)

  /** What asking the signed-in user for an ID token gave. */
  datatype Token = NoUser | TokenIssued(token: string) | TokenFailed

  /**
   * The response of `fetch("/api/questions")` as the loader sees it: the
   * call threw, or a response arrived whose JSON body either failed to
   * parse or carried `data.data` (absent or `null` as `None`).
   */
  datatype Response =
    | FetchThrew(message: string)
    | Responded(ok: bool, json: Result<Option<seq<Question>>>)

  datatype LoadResult = Loaded(questions: seq<Question>) | LoadError(message: string)

  const FetchFailedMessage := "Failed to fetch questions"
  const NoQuestionsMessage := "No questions found for the selected domain"

  /** The request headers: a bearer credential only when a token was issued. */
  function RequestHeaders(t: Token): (h: map<string, string>)
    ensures "Authorization" in h <==> t.TokenIssued?
    ensures h.Keys <= {"Authorization"}
    ensures t.TokenIssued? ==> h["Authorization"] == "Bearer " + t.token
  {
    if t.TokenIssued? then map["Authorization" := "Bearer " + t.token] else map[]
  }

  /** A domain filter applies unless the domain is absent, empty or `"all"`. */
  predicate Filters(domain: Option<string>) {
    domain.Some? && domain.value != "" && domain.value != "all"
  }

  /** Whether `q` survives the domain filter. */
  predicate Keeps(domain: Option<string>, q: Question) {
    !Filters(domain) || q.domainType == domain.value
  }

  /** `list.filter(q => q.domainType === domain)`. */
  function FilterDomain(bank: seq<Question>, domain: string): (r: seq<Question>)
    ensures forall i | 0 <= i < |r| :: r[i].domainType == domain
    ensures forall i | 0 <= i < |bank| && bank[i].domainType == domain :: bank[i] in r
    ensures multiset(r) <= multiset(bank)
  {
    if |bank| == 0 then []
    else
      assert bank == [bank[0]] + bank[1..];
      (if bank[0].domainType == domain then [bank[0]] else []) + FilterDomain(bank[1..], domain)
  }

  /** Filtering distributes over concatenation: it keeps the store's order. */
  lemma {:induction false} FilterDomainAppend(a: seq<Question>, b: seq<Question>, domain: string)
    ensures FilterDomain(a + b, domain) == FilterDomain(a, domain) + FilterDomain(b, domain)
    decreases |a|
  {
    if |a| == 0 {
      assert a + b == b;
    } else {
      assert (a + b)[0] == a[0];
      assert (a + b)[1..] == a[1..] + b;
      FilterDomainAppend(a[1..], b, domain);
    }
  }

  /** `list` without its element at index `k`. */
  function Without<T>(list: seq<T>, k: nat): (r: seq<T>)
    requires k < |list|
    ensures |r| == |list| - 1
    ensures multiset(r) + multiset{list[k]} == multiset(list)
  {
    assert list == list[..k] + [list[k]] + list[k + 1..];
    list[..k] + list[k + 1..]
  }

  /**
   * The random reordering. The comparator sort over `Math.random()` is
   * modelled as drawing the next element uniformly from those not yet
   * placed, with the draws supplied as `rolls` (missing draws read as 0).
   */
  function Shuffle(list: seq<Question>, rolls: seq<nat>): (r: seq<Question>)
    ensures |r| == |list|
    ensures multiset(r) == multiset(list)
    decreases |list|
  {
    if |list| == 0 then []
    else
      var k := Draw(rolls, |list|);
      [list[k]] + Shuffle(Without(list, k), if |rolls| > 0 then rolls[1..] else [])
  }

  /** The index the next draw picks among `n` remaining elements. */
  function Draw(rolls: seq<nat>, n: nat): (k: nat)
    requires n > 0
    ensures k < n
    ensures |rolls| > 0 && rolls[0] < n ==> k == rolls[0]
  {
    var roll := if |rolls| > 0 then rolls[0] else 0;
    if roll < n then roll else roll % n
  }

  function IndexOf<T(==)>(list: seq<T>, x: T): (k: nat)
    requires x in list
    ensures k < |list| && list[k] == x
  {
    if list[0] == x then 0 else 1 + IndexOf(list[1..], x)
  }

  lemma MultisetCancel<T>(a: multiset<T>, b: multiset<T>, x: T)
    requires a + multiset{x} == b + multiset{x}
    ensures a == b
  {
    forall y ensures a[y] == b[y] {
      assert (a + multiset{x})[y] == (b + multiset{x})[y];
    }
  }

  /** No ordering is out of reach: some draws produce any given permutation. */
  lemma {:induction false} ShuffleReachesEveryPermutation(list: seq<Question>, p: seq<Question>)
    returns (rolls: seq<nat>)
    requires multiset(p) == multiset(list)
    ensures Shuffle(list, rolls) == p
    decreases |list|
  {
    if |list| == 0 {
      assert |p| == |multiset(p)| == 0;
      rolls := [];
    } else {
      assert |p| == |multiset(p)| == |list|;
      assert p[0] in multiset(list);
      var k := IndexOf(list, p[0]);
      var w := Without(list, k);
      assert p == [p[0]] + p[1..];
      assert multiset(p) == multiset(p[1..]) + multiset{p[0]};
      MultisetCancel(multiset(w), multiset(p[1..]), p[0]);
      var rest := ShuffleReachesEveryPermutation(w, p[1..]);
      rolls := [k] + rest;
      assert rolls[0] == k && rolls[1..] == rest;
      assert Shuffle(list, rolls) == [list[k]] + Shuffle(w, rest);
      assert [p[0]] + p[1..] == p;
    }
  }

  /** The questions that survive the domain filter, in store order. */
  function Candidates(domain: Option<string>, bank: seq<Question>): (r: seq<Question>)
    ensures forall i | 0 <= i < |r| :: Keeps(domain, r[i])
    ensures Filters(domain) ==> r == FilterDomain(bank, domain.value)
    ensures !Filters(domain) ==> r == bank
    ensures |r| == 0 <==> forall i | 0 <= i < |bank| :: !Keeps(domain, bank[i])
  {
    var list := if Filters(domain) then FilterDomain(bank, domain.value) else bank;
    if |list| == 0 then
      list
    else
      assert Keeps(domain, list[0]);
      assert list[0] in multiset(bank);
      assert Keeps(domain, bank[IndexOf(bank, list[0])]);
      list
  }

  /** The part of `fetchQuestions` after a successful fetch. */
  function Prepare(domain: Option<string>, bank: seq<Question>, rolls: seq<nat>): (r: LoadResult)
    ensures r.Loaded? ==> |r.questions| > 0 && multiset(r.questions) == multiset(Candidates(domain, bank))
    ensures r.Loaded? ==> forall i | 0 <= i < |r.questions| :: Keeps(domain, r.questions[i])
    ensures r.LoadError? <==> forall i | 0 <= i < |bank| :: !Keeps(domain, bank[i])
    ensures r.LoadError? ==> r.message == NoQuestionsMessage
  {
    var list := Candidates(domain, bank);
    if |list| == 0 then LoadError(NoQuestionsMessage)
    else
      var shuffled := Shuffle(list, rolls);
      forall i | 0 <= i < |shuffled| ensures Keeps(domain, shuffled[i]) {
        assert shuffled[i] in multiset(list);
        assert list[IndexOf(list, shuffled[i])] == shuffled[i];
      }
      Loaded(shuffled)
  }

  /**
   * `fetchQuestions` without its lifecycle plumbing: `server` answers the
   * request given its headers, and `rolls` stands for `Math.random()`.
   */
  function FetchQuestions(domain: Option<string>, token: Token,
                          server: map<string, string> -> Response, rolls: seq<nat>): (r: LoadResult)
    ensures r.Loaded? ==> |r.questions| > 0
    ensures r.Loaded? && Filters(domain) ==>
      forall i | 0 <= i < |r.questions| :: r.questions[i].domainType == domain.value
  {
    match server(RequestHeaders(token))
    case FetchThrew(message) => LoadError(message)
    case Responded(ok, json) =>
      if !ok then LoadError(FetchFailedMessage)
      else match json
        case Err(message) => LoadError(message)
        case Ok(data) => Prepare(domain, data.GetOr([]), rolls)
  }

  /**
   * A token that cannot be had only drops the credential: the load behaves
   * exactly as for a visitor who is not signed in.
   */
  lemma TokenFailureOnlyDropsCredential(domain: Option<string>, server: map<string, string> -> Response, rolls: seq<nat>)
    ensures FetchQuestions(domain, TokenFailed, server, rolls) == FetchQuestions(domain, NoUser, server, rolls)
    ensures RequestHeaders(TokenFailed) == map[]
  {
  }

  /** A failed response yields an error and no questions; a missing `data.data` is an empty bank. */
  lemma FetchOutcomes(domain: Option<string>, token: Token,
                      server: map<string, string> -> Response, rolls: seq<nat>)
    ensures var resp := server(RequestHeaders(token));
      var r := FetchQuestions(domain, token, server, rolls);
      && (resp.Responded? && !resp.ok ==> r == LoadError(FetchFailedMessage))
      && (resp == Responded(true, Ok(None)) ==> r == LoadError(NoQuestionsMessage))
  {
  }
}
