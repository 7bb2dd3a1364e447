/** Splitting strings into tokens, and putting an HTTP request together from the pieces a socket delivers. */
module HttpRequest {
  import opened Sequences

  const CRLF: string := "\r\n"

  /** What a C string sees of a std::string: everything before the first NUL. */
  function CString(s: string): (r: string)
    ensures |r| <= |s| && r == s[..|r|] && '\0' !in r
    ensures |r| < |s| ==> s[|r|] == '\0'
    ensures '\0' !in s ==> r == s
  {
    if s == "" || s[0] == '\0' then "" else [s[0]] + CString(s[1..])
  }

  /** The characters of sep from k on stand at i. */
  predicate StandsAt(s: string, i: nat, sep: string, k: nat)
    decreases |sep| - k
  {
    k >= |sep| || (i < |s| && s[i] == sep[k] && StandsAt(s, i + 1, sep, k + 1))
  }

  lemma {:induction false} StandsAtSlice(s: string, i: nat, sep: string, k: nat)
    requires StandsAt(s, i, sep, k) && k <= |sep|
    ensures i + |sep| - k <= |s| || k == |sep|
    ensures k < |sep| ==> s[i..i + |sep| - k] == sep[k..]
    decreases |sep| - k
  {
    if k < |sep| {
      StandsAtSlice(s, i + 1, sep, k + 1);
      assert sep[k..] == [sep[k]] + sep[k + 1..];
      if k + 1 < |sep| {
        assert s[i..i + |sep| - k] == [s[i]] + s[i + 1..i + |sep| - k];
      }
    }
  }

  /** And nothing less: where the slice matches, the separator stands. */
  lemma {:induction false} SliceStandsAt(s: string, i: nat, sep: string, k: nat)
    requires k <= |sep| && i + |sep| - k <= |s| && s[i..i + |sep| - k] == sep[k..]
    ensures StandsAt(s, i, sep, k)
    decreases |sep| - k
  {
    if k < |sep| {
      var here := s[i..i + |sep| - k];
      assert here[0] == sep[k];
      assert s[i + 1..i + 1 + |sep| - (k + 1)] == here[1..] == sep[k + 1..];
      SliceStandsAt(s, i + 1, sep, k + 1);
    }
  }

  /** sep stands at i, or with alternatives, one of its characters does. */
  predicate SepAt(s: string, i: nat, sep: string, alt: bool)
    requires i < |s|
  {
    if alt then s[i] in sep else i + |sep| <= |s| && StandsAt(s, i, sep, 0)
  }

  function SepLength(sep: string, alt: bool): nat {
    if alt then 1 else |sep|
  }

  /** strstr or strpbrk from p: the first separator, or the end when there is none. */
  function FindSep(s: string, p: nat, sep: string, alt: bool): (r: nat)
    requires p <= |s|
    ensures p <= r <= |s| && (r < |s| ==> r + SepLength(sep, alt) <= |s|)
    decreases |s| - p
  {
    if p == |s| || SepAt(s, p, sep, alt) then p else FindSep(s, p + 1, sep, alt)
  }

  lemma {:induction false} FindsFirst(s: string, p: nat, sep: string, alt: bool)
    requires p <= |s|
    ensures var r := FindSep(s, p, sep, alt);
      && (r < |s| ==> SepAt(s, r, sep, alt))
      && forall i :: p <= i < r ==> !SepAt(s, i, sep, alt)
    decreases |s| - p
  {
    if p < |s| && !SepAt(s, p, sep, alt) {
      FindsFirst(s, p + 1, sep, alt);
    }
  }

  /** What the text between two separators adds to the tokens: with multi, nothing when it is empty. */
  function Piece(s: string, p: nat, pos: nat, multi: bool): seq<string>
    requires p <= pos <= |s|
  {
    if pos > p || !multi then [s[p..pos]] else []
  }

  /** The tokens of s from p on; what follows the last separator is a token only when not empty. */
  function Tokens(s: string, p: nat, sep: string, alt: bool, multi: bool): seq<string>
    requires p <= |s| && sep != ""
    decreases |s| - p
  {
    var pos := FindSep(s, p, sep, alt);
    if pos == |s| then (if p < |s| then [s[p..]] else [])
    else Piece(s, p, pos, multi) + Tokens(s, pos + SepLength(sep, alt), sep, alt, multi)
  }

  method FindSeparator(s: string, p: nat, sep: string, alt: bool) returns (r: nat)
    requires p <= |s|
    ensures r == FindSep(s, p, sep, alt)
  {
    r := p;
    while r < |s| && !SepAt(s, r, sep, alt)
      invariant p <= r <= |s| && FindSep(s, r, sep, alt) == FindSep(s, p, sep, alt)
    {
      r := r + 1;
    }
  }

  method PushToken(tokens: seq<string>, s: string, current: nat, pos: nat, multi: bool) returns (longer: seq<string>)
    requires current <= pos <= |s|
    ensures longer == tokens + Piece(s, current, pos, multi)
  {
    var length := pos - current;
    longer := tokens;
    if length > 0 {
      longer := longer + [s[current..pos]];
    } else if !multi {
      longer := longer + [""];
      assert s[current..pos] == "";
    }
  }

  /** An empty separator would make strstr match for ever; callers pass one of at least a character. */
  method SplitIntoTokens(str: string, sep: string, alt: bool, multi: bool) returns (tokens: seq<string>)
    requires sep != ""
    ensures tokens == Tokens(CString(str), 0, sep, alt, multi)
  {
    var s := CString(str);
    tokens := Split(s, sep, alt, multi);
  }

  method Split(s: string, sep: string, alt: bool, multi: bool) returns (tokens: seq<string>)
    requires sep != ""
    ensures tokens == Tokens(s, 0, sep, alt, multi)
  {
    ghost var all := Tokens(s, 0, sep, alt, multi);
    var current := 0;
    tokens := [];
    var pos := FindSeparator(s, current, sep, alt);
    while pos < |s|
      invariant current <= pos <= |s| && pos == FindSep(s, current, sep, alt)
      invariant all == tokens + Tokens(s, current, sep, alt, multi)
      decreases |s| - current
    {
      SplitStep(tokens, s, current, pos, sep, alt, multi);
      tokens := PushToken(tokens, s, current, pos, multi);
      current := pos + SepLength(sep, alt);
      pos := FindSeparator(s, current, sep, alt);
    }
    NothingAdded(tokens);
    if current < |s| {
      tokens := tokens + [s[current..]];
    }
  }

  lemma SplitStep(tokens: seq<string>, s: string, p: nat, pos: nat, sep: string, alt: bool, multi: bool)
    requires p <= pos < |s| && sep != "" && pos == FindSep(s, p, sep, alt)
    ensures tokens + Tokens(s, p, sep, alt, multi)
      == (tokens + Piece(s, p, pos, multi)) + Tokens(s, pos + SepLength(sep, alt), sep, alt, multi)
  {
    Associative(tokens, Piece(s, p, pos, multi), Tokens(s, pos + SepLength(sep, alt), sep, alt, multi));
  }

  // ---------- split and join ----------

  function Join(tokens: seq<string>, sep: string): string {
    if tokens == [] then ""
    else if |tokens| == 1 then tokens[0]
    else tokens[0] + sep + Join(tokens[1..], sep)
  }

  /** Whether the split of s from p ends with a separator, which leaves no token behind it. */
  function EndsInSep(s: string, p: nat, sep: string): bool
    requires p <= |s| && sep != ""
    decreases |s| - p
  {
    var pos := FindSep(s, p, sep, false);
    pos < |s| && (pos + |sep| == |s| || EndsInSep(s, pos + |sep|, sep))
  }

  /** Joining one more token in front, when the rest with its tail joins to after. */
  lemma JoinStep(first: string, rest: seq<string>, sep: string, tail: string, after: string)
    requires Join(rest, sep) + tail == after && (rest == [] <==> after == "")
    ensures Join([first] + rest, sep) + (if rest == [] then sep else tail) == first + sep + after
  {
    if rest == [] {
      assert Join([first] + rest, sep) == first;
    } else {
      assert ([first] + rest)[1..] == rest;
      Associative(first + sep, Join(rest, sep), tail);
    }
  }

  lemma Between(s: string, p: nat, pos: nat, sep: string)
    requires p <= pos < |s| && SepAt(s, pos, sep, false)
    ensures s[p..] == s[p..pos] + sep + s[pos + |sep|..]
  {
    StandsAtSlice(s, pos, sep, 0);
    if sep != "" {
      assert s[p..] == s[p..pos] + s[pos..pos + |sep|] + s[pos + |sep|..];
    }
  }

  lemma LastToken(s: string, p: nat, sep: string)
    requires p <= |s| && sep != "" && FindSep(s, p, sep, false) == |s|
    ensures Tokens(s, p, sep, false, false) == if p < |s| then [s[p..]] else []
    ensures !EndsInSep(s, p, sep)
  {
  }

  lemma TokensStep(s: string, p: nat, pos: nat, sep: string)
    requires p <= pos < |s| && sep != "" && FindSep(s, p, sep, false) == pos
    ensures pos + |sep| <= |s| && SepAt(s, pos, sep, false)
    ensures Tokens(s, p, sep, false, false) == [s[p..pos]] + Tokens(s, pos + |sep|, sep, false, false)
    ensures EndsInSep(s, p, sep) <==> pos + |sep| == |s| || EndsInSep(s, pos + |sep|, sep)
  {
    FindsFirst(s, p, sep, false);
  }

  lemma NoTokens(s: string, p: nat, sep: string)
    requires p <= |s| && sep != ""
    ensures Tokens(s, p, sep, false, false) == [] <==> p == |s|
  {
    var pos := FindSep(s, p, sep, false);
    if pos < |s| {
      TokensStep(s, p, pos, sep);
    } else {
      LastToken(s, p, sep);
    }
  }

  /** Joining the tokens gives the string back, up to one separator at its end. */
  lemma {:induction false} JoinUndoesSplit(s: string, p: nat, sep: string)
    requires p <= |s| && sep != ""
    ensures Join(Tokens(s, p, sep, false, false), sep) + (if EndsInSep(s, p, sep) then sep else "") == s[p..]
    decreases |s| - p
  {
    var pos := FindSep(s, p, sep, false);
    if pos < |s| {
      var next := pos + |sep|;
      TokensStep(s, p, pos, sep);
      JoinUndoesSplit(s, next, sep);
      JoinOneMore(s, p, pos, sep);
    } else {
      LastToken(s, p, sep);
    }
  }

  lemma JoinOneMore(s: string, p: nat, pos: nat, sep: string)
    requires p <= pos < |s| && sep != "" && FindSep(s, p, sep, false) == pos && pos + |sep| <= |s|
    requires Join(Tokens(s, pos + |sep|, sep, false, false), sep)
      + (if EndsInSep(s, pos + |sep|, sep) then sep else "") == s[pos + |sep|..]
    ensures Join(Tokens(s, p, sep, false, false), sep) + (if EndsInSep(s, p, sep) then sep else "") == s[p..]
  {
    var next := pos + |sep|;
    TokensStep(s, p, pos, sep);
    NoTokens(s, next, sep);
    Between(s, p, pos, sep);
    var tail := if EndsInSep(s, next, sep) then sep else "";
    JoinStep(s[p..pos], Tokens(s, next, sep, false, false), sep, tail, s[next..]);
  }

  // ---------- splitting, for every separator and both flags ----------

  /** The separators that the split of s from p finds. */
  function Seps(s: string, p: nat, sep: string, alt: bool): seq<string>
    requires p <= |s| && sep != ""
    decreases |s| - p
  {
    var pos := FindSep(s, p, sep, alt);
    if pos == |s| then []
    else [s[pos..pos + SepLength(sep, alt)]] + Seps(s, pos + SepLength(sep, alt), sep, alt)
  }

  /** Tokens and separators in turn, beginning with a token. */
  function Interleave(tokens: seq<string>, seps: seq<string>): string
    decreases |tokens|
  {
    if tokens == [] then ""
    else tokens[0] + if seps == [] then "" else seps[0] + Interleave(tokens[1..], seps[1..])
  }

  lemma SplitsOff(s: string, p: nat, pos: nat, sep: string, alt: bool)
    requires p <= pos < |s| && sep != "" && FindSep(s, p, sep, alt) == pos
    ensures var next := pos + SepLength(sep, alt);
      && p < next <= |s|
      && Tokens(s, p, sep, alt, false) == [s[p..pos]] + Tokens(s, next, sep, alt, false)
      && Seps(s, p, sep, alt) == [s[pos..next]] + Seps(s, next, sep, alt)
  {
  }

  lemma NoneFound(s: string, p: nat, sep: string, alt: bool)
    requires p <= |s| && sep != "" && FindSep(s, p, sep, alt) == |s|
    ensures Tokens(s, p, sep, alt, false) == (if p < |s| then [s[p..]] else []) && Seps(s, p, sep, alt) == []
  {
  }

  ghost predicate GivesBack(tokens: seq<string>, seps: seq<string>, text: string) {
    Interleave(tokens, seps) == text && |seps| <= |tokens| <= |seps| + 1
  }

  /** The tokens and the separators found between them give the string back. */
  lemma {:induction false} InterleaveUndoesSplit(s: string, p: nat, sep: string, alt: bool)
    requires p <= |s| && sep != ""
    ensures GivesBack(Tokens(s, p, sep, alt, false), Seps(s, p, sep, alt), s[p..])
    decreases |s| - p
  {
    var pos := FindSep(s, p, sep, alt);
    if pos < |s| {
      InterleaveUndoesSplit(s, pos + SepLength(sep, alt), sep, alt);
      InterleaveStep(s, p, pos, sep, alt);
    } else {
      InterleaveLast(s, p, sep, alt);
    }
  }

  lemma InterleaveLast(s: string, p: nat, sep: string, alt: bool)
    requires p <= |s| && sep != "" && FindSep(s, p, sep, alt) == |s|
    ensures GivesBack(Tokens(s, p, sep, alt, false), Seps(s, p, sep, alt), s[p..])
  {
    NoneFound(s, p, sep, alt);
  }

  lemma InterleaveStep(s: string, p: nat, pos: nat, sep: string, alt: bool)
    requires p <= pos < |s| && sep != "" && FindSep(s, p, sep, alt) == pos
    requires var next := pos + SepLength(sep, alt);
      GivesBack(Tokens(s, next, sep, alt, false), Seps(s, next, sep, alt), s[next..])
    ensures GivesBack(Tokens(s, p, sep, alt, false), Seps(s, p, sep, alt), s[p..])
  {
    var next := pos + SepLength(sep, alt);
    SplitsOff(s, p, pos, sep, alt);
    InterleaveOneMore(s, p, pos, next, Tokens(s, next, sep, alt, false), Seps(s, next, sep, alt));
  }

  lemma InterleaveOneMore(s: string, p: nat, pos: nat, next: nat, tokens: seq<string>, seps: seq<string>)
    requires p <= pos <= next <= |s| && Interleave(tokens, seps) == s[next..]
    ensures Interleave([s[p..pos]] + tokens, [s[pos..next]] + seps) == s[p..]
  {
    assert ([s[p..pos]] + tokens)[1..] == tokens && ([s[pos..next]] + seps)[1..] == seps;
    assert s[p..] == s[p..pos] + (s[pos..next] + s[next..]);
  }

  /** Each separator found is the one given, or with alternatives one of its characters. */
  lemma {:induction false} SepsAreSeparators(s: string, p: nat, sep: string, alt: bool, k: nat)
    requires p <= |s| && sep != "" && k < |Seps(s, p, sep, alt)|
    ensures var found := Seps(s, p, sep, alt)[k];
      if alt then |found| == 1 && found[0] in sep else found == sep
    decreases |s| - p
  {
    var pos := FindSep(s, p, sep, alt);
    FindsFirst(s, p, sep, alt);
    if pos < |s| {
      SplitsOff(s, p, pos, sep, alt);
      if k > 0 {
        SepsAreSeparators(s, pos + SepLength(sep, alt), sep, alt, k - 1);
      } else if !alt {
        StandsAtSlice(s, pos, sep, 0);
      }
    }
  }

  /** The separator, or with alternatives one of its characters, stands at i. */
  predicate HoldsAt(token: string, i: int, sep: string, alt: bool) {
    0 <= i < |token| && if alt then token[i] in sep else i + |sep| <= |token| && token[i..i + |sep|] == sep
  }

  ghost predicate Holds(token: string, sep: string, alt: bool) {
    exists i :: HoldsAt(token, i, sep, alt)
  }

  /** No token holds a separator. */
  lemma {:induction false} TokensHoldNone(s: string, p: nat, sep: string, alt: bool, k: nat)
    requires p <= |s| && sep != "" && k < |Tokens(s, p, sep, alt, false)|
    ensures !Holds(Tokens(s, p, sep, alt, false)[k], sep, alt)
    decreases |s| - p
  {
    var pos := FindSep(s, p, sep, alt);
    if pos < |s| {
      SplitsOff(s, p, pos, sep, alt);
      if k > 0 {
        TokensHoldNone(s, pos + SepLength(sep, alt), sep, alt, k - 1);
      } else {
        NoneBefore(s, p, pos, sep, alt);
      }
    } else {
      NoneFound(s, p, sep, alt);
      NoneBefore(s, p, pos, sep, alt);
      assert s[p..] == s[p..pos];
    }
  }

  lemma NoneBefore(s: string, p: nat, pos: nat, sep: string, alt: bool)
    requires p <= pos <= |s| && sep != "" && FindSep(s, p, sep, alt) == pos
    ensures !Holds(s[p..pos], sep, alt)
  {
    FindsFirst(s, p, sep, alt);
    forall i | HoldsAt(s[p..pos], i, sep, alt) ensures false {
      assert !SepAt(s, p + i, sep, alt);
      if !alt {
        SliceOfSlice(s, p, pos, i, i + |sep|);
        SliceStandsAt(s, p + i, sep, 0);
      }
    }
  }

  lemma SliceOfSlice(s: string, p: nat, pos: nat, i: nat, j: nat)
    requires p <= pos <= |s| && i <= j <= pos - p
    ensures s[p..pos][i..j] == s[p + i..p + j]
  {
    var part := s[p..pos];
    assert forall k :: i <= k < j ==> part[k] == s[p + k];
  }

  function DropEmpty(tokens: seq<string>): seq<string> {
    if tokens == [] then []
    else (if tokens[0] == "" then [] else [tokens[0]]) + DropEmpty(tokens[1..])
  }

  /** With multi the tokens are the same without the empty ones, for every separator. */
  lemma {:induction false} MultiDropsEmpty(s: string, p: nat, sep: string, alt: bool)
    requires p <= |s| && sep != ""
    ensures Tokens(s, p, sep, alt, true) == DropEmpty(Tokens(s, p, sep, alt, false))
    decreases |s| - p
  {
    var pos := FindSep(s, p, sep, alt);
    if pos < |s| {
      MultiDropsEmpty(s, pos + SepLength(sep, alt), sep, alt);
      MultiStep(s, p, pos, sep, alt);
    } else {
      NoneFound(s, p, sep, alt);
      if p < |s| {
        DropOneMore(s[p..], []);
      }
    }
  }

  lemma MultiStep(s: string, p: nat, pos: nat, sep: string, alt: bool)
    requires p <= pos < |s| && sep != "" && FindSep(s, p, sep, alt) == pos
    requires var next := pos + SepLength(sep, alt);
      Tokens(s, next, sep, alt, true) == DropEmpty(Tokens(s, next, sep, alt, false))
    ensures Tokens(s, p, sep, alt, true) == DropEmpty(Tokens(s, p, sep, alt, false))
  {
    SplitsOff(s, p, pos, sep, alt);
    DropOneMore(s[p..pos], Tokens(s, pos + SepLength(sep, alt), sep, alt, false));
  }

  lemma DropOneMore(token: string, tokens: seq<string>)
    ensures DropEmpty([token] + tokens) == (if token == "" then [] else [token]) + DropEmpty(tokens)
    ensures tokens == [] ==> DropEmpty([token]) == if token == "" then [] else [token]
  {
    assert ([token] + tokens)[1..] == tokens;
    assert [token][1..] == [];
  }

  /** As the connection splits a stream path. */
  lemma PathSplits()
    ensures Tokens("/a/b", 0, "/?", true, true) == ["a", "b"]
  {
    var s, sep := "/a/b", "/?";
    assert FindSep(s, 0, sep, true) == 0;
    assert FindSep(s, 1, sep, true) == 2;
    assert FindSep(s, 3, sep, true) == 4;
    assert s[1..2] == "a" && s[3..] == "b";
    assert Tokens(s, 3, sep, true, true) == ["b"];
    assert Tokens(s, 1, sep, true, true) == ["a"] + Tokens(s, 3, sep, true, true);
    assert Tokens(s, 0, sep, true, true) == [] + Tokens(s, 1, sep, true, true);
  }

  // ---------- the completeness test ----------

  predicate EndsWith(s: string, t: string) {
    |t| <= |s| && s[|s| - |t|..] == t
  }

  /** A request is taken as complete when it is an empty line or ends with one. */
  predicate Complete(s: string) {
    s == CRLF || EndsWith(s, CRLF + CRLF)
  }

  predicate CrlfAt(s: string, i: int) {
    0 <= i && i + 1 < |s| && s[i] == '\r' && s[i + 1] == '\n'
  }

  lemma SepIsCrlf(s: string, i: nat)
    requires i < |s|
    ensures SepAt(s, i, CRLF, false) <==> CrlfAt(s, i)
  {
    if i + 2 <= |s| {
      assert StandsAt(s, i + 2, CRLF, 2);
      assert StandsAt(s, i + 1, CRLF, 1) <==> s[i + 1] == '\n';
    }
  }

  /** s from p on is one CRLF, or ends with two. */
  predicate BlankEnd(s: string, p: nat) {
    || (p + 2 == |s| && CrlfAt(s, p))
    || (p + 4 <= |s| && CrlfAt(s, |s| - 4) && CrlfAt(s, |s| - 2))
  }

  lemma FindsCrlf(s: string, p: nat)
    requires p <= |s|
    ensures var pos := FindSep(s, p, CRLF, false);
      && (pos < |s| ==> CrlfAt(s, pos))
      && forall i :: p <= i < pos ==> !CrlfAt(s, i)
  {
    var pos := FindSep(s, p, CRLF, false);
    FindsFirst(s, p, CRLF, false);
    if pos < |s| {
      SepIsCrlf(s, pos);
    }
    forall i | p <= i < pos ensures !CrlfAt(s, i) {
      SepIsCrlf(s, i);
    }
  }

  lemma BlankEndStep(s: string, p: nat, pos: nat)
    requires p <= pos && CrlfAt(s, pos) && forall i :: p <= i < pos ==> !CrlfAt(s, i)
    ensures if pos + 2 == |s| then BlankEnd(s, p) <==> pos == p else BlankEnd(s, p) <==> BlankEnd(s, pos + 2)
  {
  }

  /** The last line is empty exactly if the text is one line break or ends with two. */
  lemma {:induction false} LastLineEmpty(s: string, p: nat)
    requires p < |s|
    ensures var lines := Tokens(s, p, CRLF, false, false);
      lines != [] && (lines[|lines| - 1] == "" <==> BlankEnd(s, p))
    decreases |s| - p
  {
    var pos := FindSep(s, p, CRLF, false);
    if pos == |s| {
      LastToken(s, p, CRLF);
      NoBreakNoBlankEnd(s, p);
    } else if pos + 2 < |s| {
      LastLineEmpty(s, pos + 2);
      LastLineOnward(s, p, pos);
    } else {
      LastLineHere(s, p, pos);
    }
  }

  lemma LastLineOnward(s: string, p: nat, pos: nat)
    requires p <= pos && pos + 2 < |s| && FindSep(s, p, CRLF, false) == pos
    requires var rest := Tokens(s, pos + 2, CRLF, false, false);
      rest != [] && (rest[|rest| - 1] == "" <==> BlankEnd(s, pos + 2))
    ensures var lines := Tokens(s, p, CRLF, false, false);
      lines != [] && (lines[|lines| - 1] == "" <==> BlankEnd(s, p))
  {
    TokensStep(s, p, pos, CRLF);
    FindsCrlf(s, p);
    LastLineStep(s, p, pos, Tokens(s, pos + 2, CRLF, false, false));
  }

  lemma LastLineHere(s: string, p: nat, pos: nat)
    requires p <= pos < |s| <= pos + 2 && FindSep(s, p, CRLF, false) == pos
    ensures var lines := Tokens(s, p, CRLF, false, false);
      lines != [] && (lines[|lines| - 1] == "" <==> BlankEnd(s, p))
  {
    TokensStep(s, p, pos, CRLF);
    FindsCrlf(s, p);
    LastLineStep(s, p, pos, []);
  }

  lemma LastLineStep(s: string, p: nat, pos: nat, rest: seq<string>)
    requires p <= pos && CrlfAt(s, pos) && (forall i :: p <= i < pos ==> !CrlfAt(s, i))
    requires pos + 2 == |s| ==> rest == []
    requires pos + 2 < |s| ==> rest != [] && (rest[|rest| - 1] == "" <==> BlankEnd(s, pos + 2))
    ensures var lines := [s[p..pos]] + rest;
      lines[|lines| - 1] == "" <==> BlankEnd(s, p)
  {
    BlankEndStep(s, p, pos);
    if rest != [] {
      LastOfConcat(s[p..pos], rest);
    }
  }

  lemma NoBreakNoBlankEnd(s: string, p: nat)
    requires p < |s| && FindSep(s, p, CRLF, false) == |s|
    ensures !BlankEnd(s, p)
  {
    FindsCrlf(s, p);
  }

  lemma LastOfConcat<T>(x: T, rest: seq<T>)
    requires rest != []
    ensures ([x] + rest)[|[x] + rest| - 1] == rest[|rest| - 1]
  {
  }

  // ---------- the connection ----------

  /** A request line and headers as parsed; of repeated header names the first counts. */
  datatype Request = Request(kind: string, url: string, version: string, headers: map<string, string>)

  /** What recvRequest does with a piece: keeps it for later, rejects it, or takes the request. */
  datatype Outcome = Stored | Rejected | Accepted(request: Request)

  function Lines(s: string): seq<string> {
    Tokens(CString(s), 0, CRLF, false, false)
  }

  function Headers(lines: seq<string>, i: nat, headers: map<string, string>): Outcome
    requires 1 <= i < |lines|
    decreases |lines| - i
  {
    if i == |lines| - 1 then Accepted(Request("", "", "", headers))
    else
      var parts := Tokens(CString(lines[i]), 0, ": ", false, false);
      if |parts| != 2 then Rejected
      else Headers(lines, i + 1, if parts[0] in headers then headers else headers[parts[0] := parts[1]])
  }

  /** The lines of a complete request: three words, a known version, then headers up to the empty line. */
  function Parse(lines: seq<string>): Outcome
    requires lines != []
  {
    var parts := Tokens(CString(lines[0]), 0, " ", false, false);
    if |parts| != 3 || (parts[2] != "HTTP/1.0" && parts[2] != "HTTP/1.1") then Rejected
    else if |lines| == 1 then Accepted(Request(parts[0], parts[1], parts[2], map[]))
    else match Headers(lines, 1, map[])
      case Accepted(r) => Accepted(Request(parts[0], parts[1], parts[2], r.headers))
      case other => other
  }

  /** What becomes of the text at hand, given its lines: what is kept of it, and the outcome. */
  function JudgedBy(request: string, lines: seq<string>): (string, Outcome) {
    if lines == [] then ("", Rejected)
    else if lines[|lines| - 1] != "" then (request, Stored)
    else ("", Parse(lines))
  }

  function Judge(request: string): (string, Outcome) {
    JudgedBy(request, Lines(request))
  }

  /** One call, on what was saved and a new piece. */
  function Receive(saved: string, piece: string): (string, Outcome) {
    Judge(saved + piece)
  }

  class HttpConnection {
    var mRequest: string

    constructor ()
      ensures mRequest == ""
    {
      mRequest := "";
    }

    method RecvRequest(piece: string) returns (outcome: Outcome)
      modifies this
      ensures (mRequest, outcome) == Receive(old(mRequest), piece)
    {
      var request := piece;
      if |mRequest| > 0 {
        request := mRequest + request;
        mRequest := "";
      }
      assert request == old(mRequest) + piece;
      mRequest, outcome := JudgeRequest(request);
    }

    static method JudgeRequest(request: string) returns (kept: string, outcome: Outcome)
      ensures (kept, outcome) == Judge(request)
    {
      var lines := SplitIntoTokens(request, CRLF, false, false);
      kept, outcome := JudgeLines(request, lines);
    }

    static method JudgeLines(request: string, lines: seq<string>) returns (kept: string, outcome: Outcome)
      ensures (kept, outcome) == JudgedBy(request, lines)
    {
      kept := "";
      if |lines| <= 0 {
        outcome := Rejected;
      } else if |lines[|lines| - 1]| != 0 {
        kept, outcome := request, Stored;
      } else {
        outcome := ParseLines(lines);
      }
    }

    static method ParseLines(lines: seq<string>) returns (outcome: Outcome)
      requires lines != []
      ensures outcome == Parse(lines)
    {
      var parts := SplitIntoTokens(lines[0], " ", false, false);
      if |parts| != 3 {
        return Rejected;
      }
      var requestType, requestUrl, requestVer := parts[0], parts[1], parts[2];
      if requestVer != "HTTP/1.0" && requestVer != "HTTP/1.1" {
        return Rejected;
      }
      var requestHeaders: map<string, string> := map[];
      var i := 1;
      while i < |lines| - 1
        invariant 1 <= i <= |lines| && (|lines| > 1 ==> i < |lines|)
        invariant |lines| > 1 ==> Headers(lines, i, requestHeaders) == Headers(lines, 1, map[])
        invariant |lines| == 1 ==> requestHeaders == map[]
      {
        var header := SplitIntoTokens(lines[i], ": ", false, false);
        if |header| != 2 {
          return Rejected;
        }
        if header[0] !in requestHeaders {
          requestHeaders := requestHeaders[header[0] := header[1]];
        }
        i := i + 1;
      }
      return Accepted(Request(requestType, requestUrl, requestVer, requestHeaders));
    }
  }

  // ---------- what a parsed request holds ----------

  function Words(line: string): seq<string> {
    Tokens(CString(line), 0, " ", false, false)
  }

  function HeaderParts(line: string): seq<string> {
    Tokens(CString(line), 0, ": ", false, false)
  }

  predicate KnownVersion(version: string) {
    version == "HTTP/1.0" || version == "HTTP/1.1"
  }

  /** Line j is a header line that splits into a name and a value, and the name is k. */
  predicate Names(lines: seq<string>, j: int, k: string) {
    1 <= j < |lines| - 1 && |HeaderParts(lines[j])| == 2 && HeaderParts(lines[j])[0] == k
  }

  /** Line j is the first from line i on to name k. */
  ghost predicate FirstNaming(lines: seq<string>, i: int, j: int, k: string) {
    i <= j && Names(lines, j, k) && forall m :: i <= m < j ==> !Names(lines, m, k)
  }

  ghost predicate Named(lines: seq<string>, i: int, k: string) {
    exists j :: i <= j && Names(lines, j, k)
  }

  /** A name that is known keeps its value; any other gets that of the first line that names it. */
  lemma {:induction false} HeadersMean(lines: seq<string>, i: nat, headers: map<string, string>, k: string)
    requires 1 <= i < |lines|
    ensures Headers(lines, i, headers).Accepted? <==> forall j :: i <= j < |lines| - 1 ==> |HeaderParts(lines[j])| == 2
    ensures !Headers(lines, i, headers).Accepted? ==> Headers(lines, i, headers) == Rejected
    ensures Headers(lines, i, headers).Accepted? ==>
      var found := Headers(lines, i, headers).request.headers;
      && (k in found <==> k in headers || Named(lines, i, k))
      && (k in headers ==> found[k] == headers[k])
      && (k !in headers ==>
        forall j :: FirstNaming(lines, i, j, k) ==> k in found && found[k] == HeaderParts(lines[j])[1])
    decreases |lines| - i
  {
    if i < |lines| - 1 && |HeaderParts(lines[i])| == 2 {
      var parts := HeaderParts(lines[i]);
      HeadersMean(lines, i + 1, if parts[0] in headers then headers else headers[parts[0] := parts[1]], k);
      NamedStep(lines, i, k);
    } else {
      assert i == |lines| - 1 ==> !Named(lines, i, k);
    }
  }

  lemma NamedStep(lines: seq<string>, i: nat, k: string)
    requires i < |lines|
    ensures Named(lines, i, k) <==> Names(lines, i, k) || Named(lines, i + 1, k)
    ensures !Names(lines, i, k) ==> forall j :: FirstNaming(lines, i, j, k) <==> FirstNaming(lines, i + 1, j, k)
    ensures Names(lines, i, k) ==> forall j :: FirstNaming(lines, i, j, k) ==> j == i
  {
    if Named(lines, i, k) {
      var j :| i <= j && Names(lines, j, k);
    }
  }

  /**
   * A request is accepted exactly if its first line is three words, the last a known version, and every line
   * after it but the last splits into a name and a value. It then holds those words, and under each name the
   * value of the first line that has it.
   */
  lemma ParseMeans(lines: seq<string>, k: string)
    requires lines != []
    ensures Parse(lines).Accepted? <==>
      && |Words(lines[0])| == 3 && KnownVersion(Words(lines[0])[2])
      && forall j :: 1 <= j < |lines| - 1 ==> |HeaderParts(lines[j])| == 2
    ensures !Parse(lines).Accepted? ==> Parse(lines) == Rejected
    ensures Parse(lines).Accepted? ==>
      var r := Parse(lines).request;
      && [r.kind, r.url, r.version] == Words(lines[0])
      && (k in r.headers <==> Named(lines, 1, k))
      && forall j :: FirstNaming(lines, 1, j, k) ==> k in r.headers && r.headers[k] == HeaderParts(lines[j])[1]
  {
    if |lines| > 1 {
      HeadersMean(lines, 1, map[], k);
    } else {
      assert !Named(lines, 1, k);
    }
  }

  // ---------- reassembly ----------

  lemma CompleteIsBlankEnd(s: string)
    requires s != ""
    ensures Complete(s) <==> BlankEnd(s, 0)
  {
    var n := |s|;
    if n >= 4 {
      var t := s[n - 4..];
      assert t[0] == s[n - 4] && t[1] == s[n - 3] && t[2] == s[n - 2] && t[3] == s[n - 1];
      assert CRLF + CRLF == ['\r', '\n', '\r', '\n'];
    }
  }

  /** Of a text only what comes before its first NUL counts. A call takes it when that is empty or complete. */
  predicate TakenAt(text: string) {
    CString(text) == "" || Complete(CString(text))
  }

  /** What a text that is taken comes to. */
  function Settle(text: string): Outcome {
    if Lines(text) == [] then Rejected else Parse(Lines(text))
  }

  /** A call rejects an empty text and parses a complete one; any other it keeps, with all that follows a NUL. */
  lemma ReceiveByCompleteness(saved: string, piece: string)
    ensures Lines(saved + piece) == [] <==> CString(saved + piece) == ""
    ensures Receive(saved, piece) ==
      if TakenAt(saved + piece) then ("", Settle(saved + piece)) else (saved + piece, Stored)
  {
    var c := CString(saved + piece);
    if c != "" {
      LastLineEmpty(c, 0);
      CompleteIsBlankEnd(c);
    }
  }

  function ReceiveAll(saved: string, pieces: seq<string>): seq<Outcome>
    decreases |pieces|
  {
    if pieces == [] then []
    else
      var (kept, outcome) := Receive(saved, pieces[0]);
      [outcome] + ReceiveAll(kept, pieces[1..])
  }

  function Concat(pieces: seq<string>): string
    decreases |pieces|
  {
    if pieces == [] then "" else pieces[0] + Concat(pieces[1..])
  }

  /** Stored for every piece but the last, then what the whole text comes to. */
  function OneRequest(pieces: nat, whole: string): seq<Outcome>
    requires pieces >= 1
  {
    seq(pieces - 1, _ => Stored) + [Settle(whole)]
  }

  /** The text after the first k pieces. */
  function After(saved: string, pieces: seq<string>, k: nat): string
    requires k <= |pieces|
  {
    saved + Concat(pieces[..k])
  }

  /** The text is taken after the last piece, and after no earlier one. */
  ghost predicate TakenOnlyAtEnd(saved: string, pieces: seq<string>) {
    TakenAt(After(saved, pieces, |pieces|)) && forall k :: 0 < k < |pieces| ==> !TakenAt(After(saved, pieces, k))
  }

  lemma SettleNotStored(text: string)
    ensures Settle(text) != Stored
  {
    if |Lines(text)| > 1 {
      HeadersNotStored(Lines(text), 1, map[]);
    }
  }

  lemma {:induction false} HeadersNotStored(lines: seq<string>, i: nat, headers: map<string, string>)
    requires 1 <= i < |lines|
    ensures Headers(lines, i, headers) != Stored
    decreases |lines| - i
  {
    if i < |lines| - 1 {
      var parts := Tokens(CString(lines[i]), 0, ": ", false, false);
      if |parts| == 2 {
        HeadersNotStored(lines, i + 1, if parts[0] in headers then headers else headers[parts[0] := parts[1]]);
      }
    }
  }

  lemma ConcatFirst(saved: string, pieces: seq<string>)
    requires pieces != []
    ensures saved + Concat(pieces) == (saved + pieces[0]) + Concat(pieces[1..])
  {
  }

  lemma AfterFirst(saved: string, pieces: seq<string>, k: nat)
    requires 0 < k <= |pieces|
    ensures After(saved, pieces, k) == After(saved + pieces[0], pieces[1..], k - 1)
  {
    ConcatFirst(saved, pieces[..k]);
    assert pieces[..k][1..] == pieces[1..][..k - 1];
  }

  lemma TakenOnlyAtEndStep(saved: string, pieces: seq<string>)
    requires |pieces| > 1
    ensures TakenOnlyAtEnd(saved, pieces) <==>
      !TakenAt(saved + pieces[0]) && TakenOnlyAtEnd(saved + pieces[0], pieces[1..])
  {
    var first, rest := saved + pieces[0], pieces[1..];
    assert After(first, rest, 0) == first;
    AfterFirst(saved, pieces, 1);
    AfterFirst(saved, pieces, |pieces|);
    forall k | 0 < k < |rest| ensures After(first, rest, k) == After(saved, pieces, k + 1) {
      AfterFirst(saved, pieces, k + 1);
    }
    forall k | 1 < k < |pieces| ensures After(saved, pieces, k) == After(first, rest, k - 1) {
      AfterFirst(saved, pieces, k);
    }
  }

  lemma OneRequestStep(pieces: nat, whole: string)
    requires pieces > 1
    ensures OneRequest(pieces, whole) == [Stored] + OneRequest(pieces - 1, whole)
  {
  }

  lemma ReassemblesStep(saved: string, pieces: seq<string>, whole: string)
    requires |pieces| > 1
    ensures ReceiveAll(saved, pieces) == OneRequest(|pieces|, whole) <==>
      !TakenAt(saved + pieces[0]) && ReceiveAll(saved + pieces[0], pieces[1..]) == OneRequest(|pieces| - 1, whole)
  {
    ReceiveByCompleteness(saved, pieces[0]);
    SettleNotStored(saved + pieces[0]);
    OneRequestStep(|pieces|, whole);
    var (kept, outcome) := Receive(saved, pieces[0]);
    HeadTail(outcome, ReceiveAll(kept, pieces[1..]), Stored, OneRequest(|pieces| - 1, whole));
  }

  lemma HeadTail<T>(x: T, s: seq<T>, y: T, t: seq<T>)
    ensures [x] + s == [y] + t <==> x == y && s == t
  {
    if [x] + s == [y] + t {
      assert x == ([x] + s)[0] == y;
      assert s == ([x] + s)[1..] == t;
    }
  }

  /**
   * Reassembly, with its exact condition: a text cut into any pieces is stored piece by piece and taken whole at
   * the last one exactly if it can be taken there and at no earlier cut.
   */
  lemma {:induction false} Reassembles(saved: string, pieces: seq<string>)
    requires pieces != []
    ensures ReceiveAll(saved, pieces) == OneRequest(|pieces|, saved + Concat(pieces)) <==> TakenOnlyAtEnd(saved, pieces)
    decreases |pieces|
  {
    var first, whole := saved + pieces[0], saved + Concat(pieces);
    ConcatFirst(saved, pieces);
    if |pieces| == 1 {
      OnePiece(saved, pieces[0], pieces);
    } else {
      Reassembles(first, pieces[1..]);
      TakenOnlyAtEndStep(saved, pieces);
      ReassemblesStep(saved, pieces, whole);
    }
  }

  lemma OnePiece(saved: string, piece: string, pieces: seq<string>)
    requires pieces == [piece]
    ensures saved + Concat(pieces) == saved + piece
    ensures ReceiveAll(saved, pieces) == OneRequest(1, saved + piece) <==> TakenOnlyAtEnd(saved, pieces)
  {
    ReceiveByCompleteness(saved, piece);
    SettleNotStored(saved + piece);
    assert pieces[..1] == pieces;
    assert ReceiveAll(saved, pieces) == [Receive(saved, piece).1];
    assert OneRequest(1, saved + piece) == [Settle(saved + piece)];
    assert ReceiveAll(saved, pieces)[0] == Receive(saved, piece).1;
  }

  /**
   * In particular a request whose only blank line is its end, and which does not start with one, is
   * reassembled from any pieces.
   */
  lemma AnySplitWorks(pieces: seq<string>)
    requires pieces != [] && (forall i :: 0 <= i < |pieces| ==> pieces[i] != "")
    requires var request := Concat(pieces);
      && '\0' !in request && EndsWith(request, CRLF + CRLF) && !CrlfAt(request, 0)
      && forall i :: 0 <= i < |request| - 4 ==> !(CrlfAt(request, i) && CrlfAt(request, i + 2))
    ensures Lines(Concat(pieces)) != [] && Settle(Concat(pieces)) == Parse(Lines(Concat(pieces)))
    ensures ReceiveAll("", pieces) == OneRequest(|pieces|, Concat(pieces))
  {
    var request := Concat(pieces);
    assert "" + request == request;
    CompleteIsTaken(request);
    forall k | 0 < k < |pieces| ensures !TakenAt(After("", pieces, k)) {
      ProperPrefix(pieces, k);
      NotTakenInside(request, After("", pieces, k));
    }
    assert pieces[..|pieces|] == pieces;
    Reassembles("", pieces);
  }

  lemma CompleteIsTaken(request: string)
    requires '\0' !in request && EndsWith(request, CRLF + CRLF)
    ensures TakenAt(request) && Lines(request) != [] && Settle(request) == Parse(Lines(request))
  {
    ReceiveByCompleteness("", request);
    assert "" + request == request;
  }

  lemma NotTakenInside(request: string, p: string)
    requires 0 < |p| < |request| && p == request[..|p|] && '\0' !in request && !CrlfAt(request, 0)
    requires forall i :: 0 <= i < |request| - 4 ==> !(CrlfAt(request, i) && CrlfAt(request, i + 2))
    ensures !TakenAt(p)
  {
    NoBlankEndInside(request, p);
  }

  lemma NoBlankEndInside(request: string, p: string)
    requires 0 < |p| < |request| && p == request[..|p|] && !CrlfAt(request, 0)
    requires forall i :: 0 <= i < |request| - 4 ==> !(CrlfAt(request, i) && CrlfAt(request, i + 2))
    ensures !Complete(p)
  {
    CompleteIsBlankEnd(p);
    if BlankEnd(p, 0) {
      assert CrlfAt(p, 0) ==> CrlfAt(request, 0);
      assert CrlfAt(request, |p| - 4) && CrlfAt(request, |p| - 2);
      assert false;
    }
  }

  lemma {:induction false} ProperPrefix(pieces: seq<string>, k: nat)
    requires 0 < k < |pieces| && forall i :: 0 <= i < |pieces| ==> pieces[i] != ""
    ensures var p, whole := After("", pieces, k), Concat(pieces);
      0 < |p| < |whole| && p == whole[..|p|]
    decreases k
  {
    AfterFirst("", pieces, k);
    ConcatFirst("", pieces);
    assert "" + pieces[0] == pieces[0];
    if k > 1 {
      ProperPrefix(pieces[1..], k - 1);
    } else {
      assert pieces[1..][..0] == [];
      NonEmpty(pieces[1..]);
    }
  }

  lemma NonEmpty(pieces: seq<string>)
    requires pieces != [] && pieces[0] != ""
    ensures Concat(pieces) != ""
  {
  }
}
