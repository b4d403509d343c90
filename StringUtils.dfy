/** A model of the string toolkit in StringUtils.cpp.
    Strings are `seq<char>`; case mapping is ASCII only. Positions play the role of
    `size_t` offsets, and a search that finds nothing yields None, or |s|, where the
    C++ code gets `std::string::npos`. */
module StringUtils {

  datatype Option<T> = None | Some(value: T)

  /** `std::string::npos` and the wrap-around of `size_t` arithmetic. */
  const SizeModulus: int := 0x1_0000_0000_0000_0000
  type Size = x: int | 0 <= x < SizeModulus
  const Npos: Size := SizeModulus - 1

  /** The default character set of TrimLeft, TrimRight and Trim (StringUtils.h). */
  const DefaultTrimChars: string := " \t\n\r"

  // ---------------------------------------------------------------------------
  // Sequence algebra, stated once for every element type
  // ---------------------------------------------------------------------------

  lemma {:induction false} AppendAssoc<T>(a: seq<T>, b: seq<T>, c: seq<T>)
    ensures a + (b + c) == (a + b) + c
  {
  }

  lemma {:induction false} StepEquation<T>(a: seq<T>, b: seq<T>, b': seq<T>, c: seq<T>, d: seq<T>, e: seq<T>)
    requires b == b' && e == a + b + c
    ensures a + (b' + c + d) == e + d
  {
  }

  /** A prefix of a suffix is a slice. */
  lemma {:induction false} SuffixThenPrefix<T>(s: seq<T>, l: seq<T>, t: seq<T>)
    requires |l| <= |s| && l == s[|s| - |l|..] && |t| <= |l| && t == l[..|t|]
    ensures t == s[|s| - |l|..|s| - |l| + |t|]
  {
  }

  /** Putting back the piece s[p..p + |o|] == o rebuilds the suffix from i. */
  lemma {:induction false} SameStep<T>(s: seq<T>, o: seq<T>, i: nat, p: nat, x: seq<T>)
    requires i <= p && p + |o| <= |s| && s[p..p + |o|] == o && x == s[p + |o|..]
    ensures s[i..p] + o + x == s[i..]
  {
    assert s[i..] == s[i..p] + s[p..p + |o|] + s[p + |o|..];
  }

  lemma {:induction false} AppendNil<T>(a: seq<T>)
    ensures a + [] == a && [] + a == a
  {
  }

  // ---------------------------------------------------------------------------
  // Searching: find_first_of, find_first_not_of, find_last_not_of, find
  // ---------------------------------------------------------------------------

  predicate AllIn(s: string, set_: string) {
    forall k :: 0 <= k < |s| ==> s[k] in set_
  }

  predicate NoneIn(s: string, set_: string) {
    forall k :: 0 <= k < |s| ==> s[k] !in set_
  }

  /** `find_first_of(set_, from)`: the first index at or after from whose character
      lies in set_, or |s| when there is none. */
  function FirstOf(s: string, set_: string, from: nat): (i: nat)
    requires from <= |s|
    ensures from <= i <= |s|
    ensures forall k :: from <= k < i ==> s[k] !in set_
    ensures i < |s| ==> s[i] in set_
    decreases |s| - from
  {
    if from == |s| || s[from] in set_ then from else FirstOf(s, set_, from + 1)
  }

  /** FirstOf is the only index with its contract. */
  lemma {:induction false} FirstOfIs(s: string, set_: string, from: nat, i: nat)
    requires from <= i <= |s|
    requires forall k :: from <= k < i ==> s[k] !in set_
    requires i < |s| ==> s[i] in set_
    ensures FirstOf(s, set_, from) == i
  {
  }

  /** `find_first_not_of(set_, from)`: the first index at or after from whose character
      is outside set_, or |s| when there is none. */
  function FirstNotOf(s: string, set_: string, from: nat): (i: nat)
    requires from <= |s|
    ensures from <= i <= |s|
    ensures forall k :: from <= k < i ==> s[k] in set_
    ensures i < |s| ==> s[i] !in set_
    decreases |s| - from
  {
    if from == |s| || s[from] !in set_ then from else FirstNotOf(s, set_, from + 1)
  }

  /** `find_last_not_of(set_)` on s[..end]: the last index below end whose character is
      outside set_, or None (npos) when there is none. */
  function LastNotOf(s: string, set_: string, end: nat): (r: Option<nat>)
    requires end <= |s|
    ensures r.Some? ==> r.value < end && s[r.value] !in set_
    ensures r.Some? ==> forall k :: r.value < k < end ==> s[k] in set_
    ensures r.None? ==> forall k :: 0 <= k < end ==> s[k] in set_
    decreases end
  {
    if end == 0 then None
    else if s[end - 1] !in set_ then Some(end - 1)
    else LastNotOf(s, set_, end - 1)
  }

  predicate OccursAt(s: string, pat: string, k: nat) {
    k + |pat| <= |s| && s[k..k + |pat|] == pat
  }

  /** `find(pat, from)`: the first occurrence of pat at or after from. */
  function Find(s: string, pat: string, from: nat): (r: Option<nat>)
    ensures r.Some? ==> from <= r.value && OccursAt(s, pat, r.value)
    ensures r.Some? ==> forall k :: from <= k < r.value ==> !OccursAt(s, pat, k)
    ensures r.None? ==> forall k :: from <= k ==> !OccursAt(s, pat, k)
    decreases |s| - from
  {
    if from + |pat| > |s| then None
    else if OccursAt(s, pat, from) then Some(from)
    else Find(s, pat, from + 1)
  }

  /** Searching s from k and t from m gives matching answers when s[k..] == t[m..]. */
  lemma {:induction false} FindSuffix(s: string, t: string, pat: string, k: nat, m: nat)
    requires k <= |s| && m <= |t| && s[k..] == t[m..]
    ensures Find(s, pat, k).None? <==> Find(t, pat, m).None?
    ensures Find(s, pat, k).Some? ==> Find(t, pat, m) == Some(Find(s, pat, k).value - k + m)
    decreases |s| - k
  {
    if k + |pat| <= |s| {
      SuffixStep(s, t, pat, k, m);
      if !OccursAt(s, pat, k) {
        FindSuffix(s, t, pat, k + 1, m + 1);
      }
    }
  }

  lemma {:induction false} FindSuffixSome(s: string, t: string, pat: string, k: nat, m: nat, p: nat)
    requires k <= |s| && m <= |t| && s[k..] == t[m..] && Find(s, pat, k) == Some(p)
    ensures k <= p && Find(t, pat, m) == Some(p - k + m)
  {
    FindSuffix(s, t, pat, k, m);
  }

  lemma {:induction false} FindSuffixNone(s: string, t: string, pat: string, k: nat, m: nat)
    requires k <= |s| && m <= |t| && s[k..] == t[m..] && Find(s, pat, k).None?
    ensures Find(t, pat, m).None?
  {
    FindSuffix(s, t, pat, k, m);
  }

  lemma {:induction false} SuffixStep(s: string, t: string, pat: string, k: nat, m: nat)
    requires k + |pat| <= |s| && m <= |t| && s[k..] == t[m..]
    ensures OccursAt(s, pat, k) <==> OccursAt(t, pat, m)
    ensures k < |s| ==> s[k + 1..] == t[m + 1..]
  {
    assert s[k..k + |pat|] == s[k..][..|pat|];
    assert t[m..m + |pat|] == t[m..][..|pat|];
    if k < |s| {
      assert s[k + 1..] == s[k..][1..];
      assert t[m + 1..] == t[m..][1..];
    }
  }

  // ---------------------------------------------------------------------------
  // Tokenize (StringUtils.cpp:20-40)
  // ---------------------------------------------------------------------------

  /** Reference definition: the maximal runs of non-delimiters in s[from..], left to
      right. A delimiter is skipped; any other character starts a run that extends to the
      next delimiter or the end. */
  function TokensFrom(s: string, delims: string, from: nat): seq<string>
    decreases |s| - from
  {
    if from >= |s| then []
    else
      var i := FirstOf(s, delims, from);
      if i == from then TokensFrom(s, delims, from + 1)
      else [s[from..i]] + TokensFrom(s, delims, i + 1)
  }

  function Tokens(s: string, delims: string): seq<string> {
    TokensFrom(s, delims, 0)
  }

  /** A run from `from` up to i, the next delimiter or the end, is the first token. */
  lemma {:induction false} TokensFromRun(s: string, delims: string, from: nat, i: nat)
    requires from < i <= |s| && FirstOf(s, delims, from) == i
    ensures TokensFrom(s, delims, from) == [s[from..i]] + TokensFrom(s, delims, i + 1)
  {
  }

  /** A delimiter at `from` is skipped. */
  lemma {:induction false} TokensFromSkip(s: string, delims: string, from: nat)
    requires from < |s| && s[from] in delims
    ensures TokensFrom(s, delims, from) == TokensFrom(s, delims, from + 1)
  {
  }

  /** Every token is a non-empty run of non-delimiters. */
  lemma {:induction false} TokensFromWellFormed(s: string, delims: string, from: nat)
    ensures forall k :: 0 <= k < |TokensFrom(s, delims, from)| ==>
              TokensFrom(s, delims, from)[k] != [] && NoneIn(TokensFrom(s, delims, from)[k], delims)
    decreases |s| - from
  {
    if from < |s| {
      var i := FirstOf(s, delims, from);
      TokensFromWellFormed(s, delims, i + 1);
      if i == from {
        TokensFromWellFormed(s, delims, from + 1);
      } else {
        TokensFromRun(s, delims, from, i);
        NoneInSlice(s, delims, from, i);
        WellFormedCons(s[from..i], TokensFrom(s, delims, i + 1), delims);
      }
    }
  }

  lemma {:induction false} NoneInSlice(s: string, delims: string, from: nat, i: nat)
    requires from <= i <= |s|
    requires forall k :: from <= k < i ==> s[k] !in delims
    ensures NoneIn(s[from..i], delims)
  {
    forall k | 0 <= k < i - from ensures s[from..i][k] !in delims {
      assert s[from..i][k] == s[from + k];
    }
  }

  lemma {:induction false} WellFormedCons(t: string, ts: seq<string>, delims: string)
    requires t != [] && NoneIn(t, delims)
    requires forall k :: 0 <= k < |ts| ==> ts[k] != [] && NoneIn(ts[k], delims)
    ensures forall k :: 0 <= k < |[t] + ts| ==> ([t] + ts)[k] != [] && NoneIn(([t] + ts)[k], delims)
  {
    forall k | 0 <= k < |[t] + ts| ensures ([t] + ts)[k] != [] && NoneIn(([t] + ts)[k], delims) {
      if k > 0 {
        assert ([t] + ts)[k] == ts[k - 1];
      }
    }
  }

  lemma {:induction false} TokensWellFormed(s: string, delims: string)
    ensures forall k :: 0 <= k < |Tokens(s, delims)| ==>
              Tokens(s, delims)[k] != [] && NoneIn(Tokens(s, delims)[k], delims)
  {
    TokensFromWellFormed(s, delims, 0);
  }

  /** A non-empty run without delimiters is exactly one token. */
  lemma {:induction false} TokensOfRun(s: string, delims: string)
    requires s != [] && NoneIn(s, delims)
    ensures Tokens(s, delims) == [s]
  {
    FirstOfIs(s, delims, 0, |s|);
    TokensFromRun(s, delims, 0, |s|);
    assert s[0..|s|] == s;
    AppendNil([s]);
  }

  /** No tokens exactly when every character of s[from..] is a delimiter. */
  lemma {:induction false} TokensFromEmptyIff(s: string, delims: string, from: nat)
    ensures TokensFrom(s, delims, from) == [] <==> forall k :: from <= k < |s| ==> s[k] in delims
    decreases |s| - from
  {
    if from < |s| {
      if s[from] in delims {
        TokensFromSkip(s, delims, from);
        TokensFromEmptyIff(s, delims, from + 1);
      } else {
        TokensFromRun(s, delims, from, FirstOf(s, delims, from));
      }
    }
  }

  /** Empty or all-delimiter input gives no tokens, and only such input does. */
  lemma {:induction false} TokensEmptyIff(s: string, delims: string)
    ensures Tokens(s, delims) == [] <==> AllIn(s, delims)
  {
    TokensFromEmptyIff(s, delims, 0);
  }

  /** Tokenize's loop state: the tokens found so far, followed by the tokens of the
      text not yet consumed, are the tokens of the whole line; no delimiter lies
      between last and pos. */
  predicate TokenizeInv(strLine: string, delims: string, found: seq<string>, last: nat, pos: nat) {
    last <= pos <= |strLine| &&
    FirstOf(strLine, delims, last) >= pos &&
    Tokens(strLine, delims) == found + if pos < |strLine| then TokensFrom(strLine, delims, last) else []
  }

  lemma {:induction false} TokenizeStepPush(strLine: string, delims: string, found: seq<string>, last: nat, pos: nat,
                                            found': seq<string>)
    requires pos < |strLine| && TokenizeInv(strLine, delims, found, last, pos)
    requires strLine[pos] in delims && pos >= last + 1 && found' == found + [strLine[last..pos]]
    ensures TokenizeInv(strLine, delims, found', pos + 1, pos + 1)
  {
    TokensFromRun(strLine, delims, last, pos);
    AppendAssoc(found, [strLine[last..pos]], TokensFrom(strLine, delims, pos + 1));
  }

  lemma {:induction false} TokenizeStepSkip(strLine: string, delims: string, found: seq<string>, last: nat, pos: nat)
    requires pos < |strLine| && TokenizeInv(strLine, delims, found, last, pos)
    requires strLine[pos] in delims && pos < last + 1
    ensures TokenizeInv(strLine, delims, found, pos + 1, pos + 1)
  {
    TokensFromSkip(strLine, delims, pos);
    AppendNil(found);
  }

  lemma {:induction false} TokenizeStepLast(strLine: string, delims: string, found: seq<string>, last: nat, pos: nat,
                                            found': seq<string>)
    requires pos == |strLine| - 1 && TokenizeInv(strLine, delims, found, last, pos)
    requires strLine[pos] !in delims && found' == found + [strLine[last..]]
    ensures TokenizeInv(strLine, delims, found', last, pos + 1)
  {
    assert FirstOf(strLine, delims, last) == |strLine|;
    TokensFromRun(strLine, delims, last, |strLine|);
    assert TokensFrom(strLine, delims, |strLine| + 1) == [];
    assert strLine[last..|strLine|] == strLine[last..];
    AppendNil(found');
  }

  lemma {:induction false} TokenizeStepRun(strLine: string, delims: string, found: seq<string>, last: nat, pos: nat)
    requires pos < |strLine| - 1 && TokenizeInv(strLine, delims, found, last, pos)
    requires strLine[pos] !in delims
    ensures TokenizeInv(strLine, delims, found, last, pos + 1)
  {
  }

  /** One pass of Tokenize's loop body, from (found, last) to (found', last'). */
  lemma {:induction false} TokenizeStep(strLine: string, delims: string, found: seq<string>, last: nat, pos: nat,
                                        found': seq<string>, last': nat)
    requires pos < |strLine| && TokenizeInv(strLine, delims, found, last, pos)
    requires strLine[pos] in delims ==>
               last' == pos + 1 && found' == if pos >= last + 1 then found + [strLine[last..pos]] else found
    requires strLine[pos] !in delims ==>
               last' == last && found' == if pos == |strLine| - 1 then found + [strLine[last..]] else found
    ensures TokenizeInv(strLine, delims, found', last', pos + 1)
  {
    if strLine[pos] !in delims {
      if pos == |strLine| - 1 {
        TokenizeStepLast(strLine, delims, found, last, pos, found');
      } else {
        TokenizeStepRun(strLine, delims, found, last, pos);
      }
    } else if pos >= last + 1 {
      TokenizeStepPush(strLine, delims, found, last, pos, found');
    } else {
      TokenizeStepSkip(strLine, delims, found, last, pos);
    }
  }

  /** Tokenize: an index loop that pushes each completed run. */
  method Tokenize(strLine: string, strDelimiters: string) returns (vecStrings: seq<string>)
    ensures vecStrings == Tokens(strLine, strDelimiters)
  {
    vecStrings := [];
    var pos, last := 0, 0;
    while pos < |strLine|
      invariant TokenizeInv(strLine, strDelimiters, vecStrings, last, pos)
    {
      ghost var found0, last0 := vecStrings, last;
      if strLine[pos] in strDelimiters {
        if pos >= last + 1 {
          vecStrings := vecStrings + [strLine[last..pos]];
        }
        last := pos + 1;
      } else if pos == |strLine| - 1 {
        vecStrings := vecStrings + [strLine[last..]];
      }
      TokenizeStep(strLine, strDelimiters, found0, last0, pos, vecStrings, last);
      pos := pos + 1;
    }
    AppendNil(vecStrings);
  }

  // ---------------------------------------------------------------------------
  // Split and GetKeyValue (StringUtils.cpp:43-73)
  // ---------------------------------------------------------------------------

  /** Split at the first occurrence of strDelim. The right part starts exactly one
      character after the start of that occurrence, whatever the delimiter's length.
      On false the caller's strLeft and strRight come back unchanged. An empty
      delimiter is found at 0, and with an empty str as well `substr(1)` would throw. */
  function Split(str: string, strDelim: string, strLeft: string, strRight: string): (r: (bool, string, string))
    requires str != [] || strDelim != []
    ensures !r.0 <==> forall k :: !OccursAt(str, strDelim, k)
    ensures !r.0 ==> r.1 == strLeft && r.2 == strRight
    ensures r.0 ==> OccursAt(str, strDelim, |r.1|) && r.1 == str[..|r.1|]
    ensures r.0 ==> forall k :: 0 <= k < |r.1| ==> !OccursAt(str, strDelim, k)
    ensures r.0 ==> |r.1| < |str| && r.2 == str[|r.1| + 1..]
  {
    match Find(str, strDelim, 0)
    case None => (false, strLeft, strRight)
    case Some(i) =>
      assert OccursAt(str, strDelim, i);
      (true, str[..i], str[i + 1..])
  }

  /** For a one-character delimiter the two parts around the delimiter rebuild str. */
  lemma {:induction false} SplitRebuilds(str: string, strDelim: string, strLeft: string, strRight: string)
    requires |strDelim| == 1
    ensures var r := Split(str, strDelim, strLeft, strRight);
            r.0 ==> r.1 + strDelim + r.2 == str
  {
    var r := Split(str, strDelim, strLeft, strRight);
    if r.0 {
      var i := |r.1|;
      assert str[i..i + 1] == strDelim;
      assert str == str[..i] + str[i..i + 1] + str[i + 1..];
    }
  }

  /** The key and value of a token: the text before and after its first '='. */
  function KeyValueOf(token: string): (kv: Option<(string, string)>)
    ensures kv.None? <==> '=' !in token
    ensures kv.Some? ==> '=' !in kv.value.0 && token == kv.value.0 + "=" + kv.value.1
  {
    var i := FirstOf(token, "=", 0);
    if i == |token| then
      assert forall k :: 0 <= k < |token| ==> token[k] != '=';
      None
    else
      assert token == token[..i] + "=" + token[i + 1..];
      Some((token[..i], token[i + 1..]))
  }

  /** An occurrence of a one-character pattern is that character. */
  lemma {:induction false} OccursChar(s: string, c: char, k: nat)
    ensures OccursAt(s, [c], k) <==> k < |s| && s[k] == c
  {
    if k < |s| {
      assert s[k..k + 1][0] == s[k];
      if s[k] == c {
        assert s[k..k + 1] == [c];
      }
    }
  }

  /** Split(token, "=") is how GetKeyValue takes a token apart. */
  lemma {:induction false} SplitAtEquals(token: string)
    ensures var r := Split(token, "=", "", "");
            r.0 == KeyValueOf(token).Some? &&
            (r.0 ==> (r.1, r.2) == KeyValueOf(token).value)
  {
    var r := Split(token, "=", "", "");
    var i := FirstOf(token, "=", 0);
    OccursChar(token, '=', i);
    if r.0 {
      OccursChar(token, '=', |r.1|);
    }
  }

  predicate HasKey(token: string, key: string) {
    KeyValueOf(token).Some? && KeyValueOf(token).value.0 == key
  }

  /** The index of the first token at or after i whose key is key, or |tokens|. */
  function FirstWithKey(tokens: seq<string>, key: string, i: nat): (j: nat)
    requires i <= |tokens|
    ensures i <= j <= |tokens|
    ensures forall m :: i <= m < j ==> !HasKey(tokens[m], key)
    ensures j < |tokens| ==> HasKey(tokens[j], key)
    decreases |tokens| - i
  {
    if i == |tokens| || HasKey(tokens[i], key) then i else FirstWithKey(tokens, key, i + 1)
  }

  /** Reference definition: the value of the first token whose key is key. It finds a
      value exactly when some token has the key, and the value comes from the first such
      token, which reads key + "=" + value. */
  function LookupKey(tokens: seq<string>, key: string): (v: Option<string>)
    ensures v.None? <==> forall m :: 0 <= m < |tokens| ==> !HasKey(tokens[m], key)
    ensures v.Some? ==>
              var j := FirstWithKey(tokens, key, 0);
              j < |tokens| && tokens[j] == key + "=" + v.value &&
              forall m :: 0 <= m < j ==> !HasKey(tokens[m], key)
  {
    var j := FirstWithKey(tokens, key, 0);
    if j == |tokens| then None else Some(KeyValueOf(tokens[j]).value.1)
  }

  /** GetKeyValue: scan the tokens of str in order; on false the caller's strValue
      comes back unchanged. */
  method GetKeyValue(str: string, strKey: string, strValue: string, strToken: string := " ")
    returns (found: bool, value: string)
    ensures found <==> LookupKey(Tokens(str, strToken), strKey).Some?
    ensures value == if found then LookupKey(Tokens(str, strToken), strKey).value else strValue
  {
    var vecTokens := Tokenize(str, strToken);
    var i := 0;
    while i < |vecTokens|
      invariant i <= |vecTokens|
      invariant FirstWithKey(vecTokens, strKey, 0) == FirstWithKey(vecTokens, strKey, i)
    {
      var r := Split(vecTokens[i], "=", "", "");
      SplitAtEquals(vecTokens[i]);
      if r.0 && r.1 == strKey {
        return true, r.2;
      }
      i := i + 1;
    }
    return false, strValue;
  }

  // ---------------------------------------------------------------------------
  // Left, Mid, Right, StartsWith (StringUtils.cpp:76-99, 151-154)
  // ---------------------------------------------------------------------------

  function Min(a: int, b: int): int { if a < b then a else b }

  /** `substr(pos, n)`: at most n characters from pos on. */
  function Substr(s: string, pos: nat, n: nat): (r: string)
    requires pos <= |s|
    ensures |r| == Min(n, |s| - pos) && r == s[pos..pos + |r|]
  {
    s[pos..pos + Min(n, |s| - pos)]
  }

  /** The prefix of length min(count, |str|). */
  function Left(str: string, count: nat): (r: string)
    ensures |r| == Min(count, |str|) && r <= str
  {
    Substr(str, 0, Min(count, |str|))
  }

  /** The suffix of length min(count, |str|). */
  function Right(str: string, count: nat): (r: string)
    ensures |r| == Min(count, |str|) && r == str[|str| - |r|..]
  {
    str[|str| - Min(count, |str|)..]
  }

  /** Mid as written: the `size_t` sum first + count wraps modulo 2^64, and still the
      result is the slice from first up to first + count or the end. */
  function Mid(str: string, first: Size, count: Size := Npos): (r: string)
    requires |str| < SizeModulus
    ensures first <= |str| ==> r == str[first..Min(first + count, |str|)]
    ensures first > |str| ==> r == ""
  {
    var count' := if (first + count) % SizeModulus > |str| then (|str| - first) % SizeModulus else count;
    if first > |str| then ""
    else
      assert (first + count) % SizeModulus ==
               if first + count < SizeModulus then first + count else first + count - SizeModulus;
      Substr(str, first, count')
  }

  /** StartsWith holds exactly when str2 is a prefix of str1. */
  function StartsWith(str1: string, str2: string): (b: bool)
    ensures b <==> str2 <= str1
  {
    |str1| >= |str2| && Left(str1, |str2|) == str2
  }

  // ---------------------------------------------------------------------------
  // Case mapping and case-insensitive comparison (StringUtils.cpp:128-148, 182-204)
  // ---------------------------------------------------------------------------

  /** `tolower` and `toupper` in the "C" locale. */
  function LowerChar(c: char): char {
    if 'A' <= c <= 'Z' then (c as int + 32) as char else c
  }

  function UpperChar(c: char): char {
    if 'a' <= c <= 'z' then (c as int - 32) as char else c
  }

  /** The string mapped through tolower: same length, no upper-case letter left, and
      the same string to a case-insensitive eye. */
  function LowerString(s: string): (r: string)
    ensures |r| == |s|
    ensures forall k :: 0 <= k < |r| ==> !('A' <= r[k] <= 'Z')
    ensures forall k :: 0 <= k < |r| ==> UpperChar(r[k]) == UpperChar(s[k])
  {
    seq(|s|, i requires 0 <= i < |s| => LowerChar(s[i]))
  }

  /** The string mapped through toupper: same length, no lower-case letter left, and
      the same string to a case-insensitive eye. */
  function UpperString(s: string): (r: string)
    ensures |r| == |s|
    ensures forall k :: 0 <= k < |r| ==> !('a' <= r[k] <= 'z')
    ensures LowerString(r) == LowerString(s)
  {
    var r := seq(|s|, i requires 0 <= i < |s| => UpperChar(s[i]));
    assert forall k :: 0 <= k < |s| ==> LowerString(r)[k] == LowerString(s)[k];
    r
  }

  lemma {:induction false} CaseMappingIdempotent(s: string)
    ensures LowerString(LowerString(s)) == LowerString(s)
    ensures UpperString(UpperString(s)) == UpperString(s)
  {
    var l, u := LowerString(s), UpperString(s);
    assert forall k :: 0 <= k < |l| ==> LowerString(l)[k] == l[k];
    assert forall k :: 0 <= k < |u| ==> UpperString(u)[k] == u[k];
  }

  /** ToUpper: a copy of str written over character by character. */
  method ToUpper(str: string) returns (strResult: string)
    ensures strResult == UpperString(str)
  {
    strResult := str;
    var i := 0;
    while i < |strResult|
      invariant |strResult| == |str| && 0 <= i <= |str|
      invariant forall k :: 0 <= k < i ==> strResult[k] == UpperChar(str[k])
      invariant forall k :: i <= k < |str| ==> strResult[k] == str[k]
    {
      strResult := strResult[i := UpperChar(strResult[i])];
      i := i + 1;
    }
  }

  /** ToLower: a copy of str written over character by character. */
  method ToLower(str: string) returns (strResult: string)
    ensures strResult == LowerString(str)
  {
    strResult := str;
    var i := 0;
    while i < |strResult|
      invariant |strResult| == |str| && 0 <= i <= |str|
      invariant forall k :: 0 <= k < i ==> strResult[k] == LowerChar(str[k])
      invariant forall k :: i <= k < |str| ==> strResult[k] == str[k]
    {
      strResult := strResult[i := LowerChar(strResult[i])];
      i := i + 1;
    }
  }

  /** The C string seen through `c_str()`: the text up to the first NUL. */
  function CStr(s: string): (r: string)
    ensures r <= s && '\0' !in r
    ensures |r| < |s| ==> s[|r|] == '\0'
  {
    s[..FirstOf(s, "\0", 0)]
  }

  /** Character i of `c_str()`, the terminating NUL included. */
  function CharAt(s: string, i: nat): char {
    if i < |s| then s[i] else '\0'
  }

  /** EqualsNoCase: walk both C strings together until a mismatch or the end of the
      first; it answers whether the two C strings agree after tolower. */
  method EqualsNoCase(s1: string, s2: string) returns (equal: bool)
    ensures equal <==> LowerString(CStr(s1)) == LowerString(CStr(s2))
  {
    var i := 0;
    while true
      invariant i <= |s1| && i <= |s2|
      invariant forall k :: 0 <= k < i ==> s1[k] != '\0' && LowerChar(s1[k]) == LowerChar(s2[k])
      decreases |s1| - i
    {
      var c1, c2 := CharAt(s1, i), CharAt(s2, i);
      if LowerChar(c1) != LowerChar(c2) {
        CStrMismatch(s1, s2, i);
        return false;
      }
      if c1 == '\0' {
        NoNulPrefix(s1, i);
        NoNulPrefix(s2, i);
        assert LowerString(s1[..i]) == LowerString(s2[..i]);
        return true;
      }
      i := i + 1;
    }
  }

  /** With s[..i] free of NUL, the C string is s[..i] exactly when character i is NUL,
      and extends past i otherwise. */
  lemma {:induction false} NoNulPrefix(s: string, i: nat)
    requires i <= |s|
    requires forall k :: 0 <= k < i ==> LowerChar(s[k]) != '\0'
    ensures CharAt(s, i) == '\0' ==> CStr(s) == s[..i]
    ensures CharAt(s, i) != '\0' ==> |CStr(s)| > i && CStr(s)[..i + 1] == s[..i + 1]
  {
    forall k | 0 <= k < i ensures s[k] !in "\0" {
      assert LowerChar(s[k]) != '\0';
    }
    FirstOfIs(s, "\0", 0, FirstOf(s, "\0", 0));
  }

  /** A position-wise mismatch at i, after a NUL-free common prefix, makes the
      lower-cased C strings differ. */
  lemma {:induction false} CStrMismatch(s1: string, s2: string, i: nat)
    requires i <= |s1| && i <= |s2|
    requires forall k :: 0 <= k < i ==> s1[k] != '\0' && LowerChar(s1[k]) == LowerChar(s2[k])
    requires LowerChar(CharAt(s1, i)) != LowerChar(CharAt(s2, i))
    ensures LowerString(CStr(s1)) != LowerString(CStr(s2))
  {
    NoNulPrefix(s1, i);
    NoNulPrefix(s2, i);
    var a, b := CStr(s1), CStr(s2);
    if CharAt(s1, i) == '\0' {
      assert |LowerString(a)| == i < |LowerString(b)|;
    } else if CharAt(s2, i) == '\0' {
      assert |LowerString(b)| == i < |LowerString(a)|;
    } else {
      assert a[i] == s1[i] && b[i] == s2[i];
      assert LowerString(a)[i] != LowerString(b)[i];
    }
  }

  /** For strings without an embedded NUL, EqualsNoCase is equal length plus a
      position-wise match after tolower. */
  lemma {:induction false} EqualsNoCaseMeaning(s1: string, s2: string)
    requires '\0' !in s1 && '\0' !in s2
    ensures LowerString(CStr(s1)) == LowerString(CStr(s2)) <==>
              |s1| == |s2| && forall k :: 0 <= k < |s1| ==> LowerChar(s1[k]) == LowerChar(s2[k])
  {
    assert CStr(s1) == s1 && CStr(s2) == s2;
    if LowerString(s1) == LowerString(s2) {
      forall k | 0 <= k < |s1| ensures LowerChar(s1[k]) == LowerChar(s2[k]) {
        assert LowerString(s1)[k] == LowerString(s2)[k];
      }
    }
  }

  // ---------------------------------------------------------------------------
  // Replace (StringUtils.cpp:156-179)
  // ---------------------------------------------------------------------------

  /** Replace(char): every cOld becomes cNew in place; nothing else changes. */
  method ReplaceChar(str: string, cOld: char, cNew: char) returns (r: string)
    ensures |r| == |str|
    ensures forall k :: 0 <= k < |str| ==> r[k] == if str[k] == cOld then cNew else str[k]
  {
    r := str;
    var i := 0;
    while i < |r|
      invariant |r| == |str| && 0 <= i <= |r|
      invariant forall k :: 0 <= k < i ==> r[k] == if str[k] == cOld then cNew else str[k]
      invariant forall k :: i <= k < |r| ==> r[k] == str[k]
    {
      if r[i] == cOld {
        r := r[i := cNew];
      }
      i := i + 1;
    }
  }

  /** Reference definition: replace the occurrences of strOld in s[from..], left to
      right and without overlap; the search resumes after each replaced occurrence, so
      the text inserted is never searched. */
  function ReplaceFrom(s: string, strOld: string, strNew: string, from: nat): string
    requires strOld != [] && from <= |s|
    decreases |s| - from
  {
    match Find(s, strOld, from)
    case None => s[from..]
    case Some(p) => s[from..p] + strNew + ReplaceFrom(s, strOld, strNew, p + |strOld|)
  }

  lemma {:induction false} ReplaceFromAt(s: string, strOld: string, strNew: string, from: nat, p: nat, next: nat)
    requires strOld != [] && from <= |s| && Find(s, strOld, from) == Some(p) && next == p + |strOld|
    ensures from <= p && next <= |s|
    ensures ReplaceFrom(s, strOld, strNew, from) == s[from..p] + strNew + ReplaceFrom(s, strOld, strNew, next)
  {
  }

  lemma {:induction false} ReplaceFromNone(s: string, strOld: string, strNew: string, from: nat)
    requires strOld != [] && from <= |s| && Find(s, strOld, from).None?
    ensures ReplaceFrom(s, strOld, strNew, from) == s[from..]
  {
  }

  /** Every occurrence replaced; a string without strOld is left as it is. */
  function ReplaceAll(s: string, strOld: string, strNew: string): (r: string)
    requires strOld != []
    ensures (forall k :: !OccursAt(s, strOld, k)) ==> r == s
  {
    if Find(s, strOld, 0).None? then
      ReplaceFromNone(s, strOld, strNew, 0);
      assert s[0..] == s;
      ReplaceFrom(s, strOld, strNew, 0)
    else
      ReplaceFrom(s, strOld, strNew, 0)
  }

  /** Inserted text is not searched again: replacing the whole string gives strNew even
      when strNew contains strOld. */
  lemma {:induction false} ReplaceWhole(strOld: string, strNew: string)
    requires strOld != []
    ensures ReplaceAll(strOld, strOld, strNew) == strNew
  {
    assert strOld[0..|strOld|] == strOld;
    assert Find(strOld, strOld, 0) == Some(0);
    ReplaceFromAt(strOld, strOld, strNew, 0, 0, |strOld|);
    ReplaceFromNone(strOld, strOld, strNew, |strOld|);
    assert strOld[|strOld|..] == [] && strOld[0..0] == [];
    AppendNil(strNew);
  }

  /** Replacing a string by itself changes nothing. */
  lemma {:induction false} ReplaceFromSame(s: string, strOld: string, from: nat)
    requires strOld != [] && from <= |s|
    ensures ReplaceFrom(s, strOld, strOld, from) == s[from..]
    decreases |s| - from
  {
    var f := Find(s, strOld, from);
    if f.Some? {
      var p := f.value;
      ReplaceFromAt(s, strOld, strOld, from, p, p + |strOld|);
      ReplaceFromSame(s, strOld, p + |strOld|);
      SameStep(s, strOld, from, p, ReplaceFrom(s, strOld, strOld, p + |strOld|));
    } else {
      ReplaceFromNone(s, strOld, strOld, from);
    }
  }

  lemma {:induction false} ReplaceAllSame(s: string, strOld: string)
    requires strOld != []
    ensures ReplaceAll(s, strOld, strOld) == s
  {
    ReplaceFromSame(s, strOld, 0);
  }

  /** Slices of two strings that agree from k and m on, taken at matching offsets. */
  lemma {:induction false} SuffixSlices(s: string, t: string, k: nat, m: nat, i: nat, j: nat, e: nat, f: nat)
    requires k <= i <= e <= |s| && m <= |t| && s[k..] == t[m..]
    requires j == i - k + m && f == e - k + m
    ensures j <= f <= |t| && s[k..i] == t[m..j] && s[e..] == t[f..]
  {
    assert s[k..i] == s[k..][..i - k];
    assert t[m..j] == t[m..][..i - k];
    assert s[e..] == s[k..][e - k..];
    assert t[f..] == t[m..][e - k..];
  }


  /** One pass of Replace(string)'s loop, in terms of the original text str: r[pos..]
      is still untouched text str[q..], and the occurrence that `find` reports at p in r
      is the one ReplaceFrom replaces next, at p' in str; both texts resume after it,
      at pos' in r' and at q' in str. */
  lemma {:induction false} ReplaceStep(str: string, strOld: string, strNew: string, r: string, pos: nat, q: nat,
                                       p: nat, p': nat, q': nat, pos': nat, r': string)
    requires strOld != [] && pos <= |r| && q <= |str| && r[pos..] == str[q..]
    requires Find(r, strOld, pos) == Some(p) && p' == p - pos + q && q' == p' + |strOld| && pos' == p + |strNew|
    requires r' == r[..p] + strNew + r[p + |strOld|..]
    ensures pos' <= |r'| && q' <= |str|
    ensures r'[pos'..] == str[q'..]
    ensures r[..pos] + ReplaceFrom(str, strOld, strNew, q) == r'[..pos'] + ReplaceFrom(str, strOld, strNew, q')
  {
    FindSuffixSome(r, str, strOld, pos, q, p);
    ReplaceFromAt(str, strOld, strNew, q, p', q');
    ReplaceStepPieces(str, strOld, strNew, r, pos, q, p, p', q', pos', r');
    StepEquation(r[..pos], str[q..p'], str[q..p'], strNew, ReplaceFrom(str, strOld, strNew, q'), r'[..pos']);
  }

  /** The text side of one pass: the new prefix is the old one, the untouched text up to
      the occurrence and strNew; the new suffix is still untouched text of str. */
  lemma {:induction false} ReplaceStepPieces(str: string, strOld: string, strNew: string, r: string, pos: nat, q: nat,
                                             p: nat, p': nat, q': nat, pos': nat, r': string)
    requires pos <= p && p + |strOld| <= |r| && q <= |str| && r[pos..] == str[q..]
    requires p' == p - pos + q && q' == p' + |strOld| && pos' == p + |strNew|
    requires r' == r[..p] + strNew + r[p + |strOld|..]
    ensures pos' <= |r'| && q' <= |str|
    ensures r'[pos'..] == str[q'..]
    ensures r'[..pos'] == r[..pos] + str[q..p'] + strNew
  {
    SuffixSlices(r, str, pos, q, p, p', p + |strOld|, q');
    ReplaceStepText(r, strOld, strNew, pos, p, r');
  }

  lemma {:induction false} ReplaceStepText(r: string, strOld: string, strNew: string, pos: nat, p: nat, r': string)
    requires pos <= p && p + |strOld| <= |r| && r' == r[..p] + strNew + r[p + |strOld|..]
    ensures |r'| == |r| - |strOld| + |strNew|
    ensures r'[..p + |strNew|] == r[..pos] + r[pos..p] + strNew
    ensures r'[p + |strNew|..] == r[p + |strOld|..]
  {
    assert r[..pos] + r[pos..p] == r[..p];
  }

  /** Replace(string)'s loop state: r[pos..] is the untouched text str[q..], and the
      text before pos followed by the replacement of str[q..] is the final result. */
  predicate ReplaceInv(str: string, strOld: string, strNew: string, r: string, pos: nat, q: nat)
    requires strOld != []
  {
    pos <= |r| && q <= |str| && r[pos..] == str[q..] &&
    ReplaceAll(str, strOld, strNew) == r[..pos] + ReplaceFrom(str, strOld, strNew, q)
  }

  lemma {:induction false} ReplaceInvStep(str: string, strOld: string, strNew: string, r: string, pos: nat, q: nat,
                                          p: nat, p': nat, q': nat, pos': nat, r': string)
    requires strOld != [] && ReplaceInv(str, strOld, strNew, r, pos, q)
    requires Find(r, strOld, pos) == Some(p) && p' == p - pos + q && q' == p' + |strOld| && pos' == p + |strNew|
    requires r' == r[..p] + strNew + r[p + |strOld|..]
    ensures |r'| - pos' < |r| - pos
    ensures ReplaceInv(str, strOld, strNew, r', pos', q')
  {
    ReplaceStep(str, strOld, strNew, r, pos, q, p, p', q', pos', r');
  }

  /** When `find` reports npos, or pos has reached the end, the result is r. */
  lemma {:induction false} ReplaceInvDone(str: string, strOld: string, strNew: string, r: string, pos: nat, q: nat)
    requires strOld != [] && ReplaceInv(str, strOld, strNew, r, pos, q)
    requires pos == |r| || Find(r, strOld, pos).None?
    ensures ReplaceAll(str, strOld, strNew) == r
  {
    FindSuffixNone(r, str, strOld, pos, q);
    ReplaceFromNone(str, strOld, strNew, q);
    assert r[..pos] + r[pos..] == r;
  }

  /** Replace(string): in place, never searching inserted text; an empty strOld is a
      no-op. */
  method ReplaceString(str: string, strOld: string, strNew: string) returns (r: string)
    ensures strOld == [] ==> r == str
    ensures strOld != [] ==> r == ReplaceAll(str, strOld, strNew)
  {
    r := str;
    if strOld == [] {
      return;
    }
    var pos: nat := 0;
    ghost var q: nat := 0;
    assert r[..0] + ReplaceFrom(str, strOld, strNew, 0) == ReplaceFrom(str, strOld, strNew, 0);
    while pos < |r|
      invariant ReplaceInv(str, strOld, strNew, r, pos, q)
      decreases |r| - pos
    {
      var found := Find(r, strOld, pos);
      if found.None? {
        ReplaceInvDone(str, strOld, strNew, r, pos, q);
        return;
      }
      var p := found.value;
      ghost var r0 := r;
      r := r[..p] + strNew + r[p + |strOld|..];
      ghost var p' := p - pos + q;
      ghost var q' := p' + |strOld|;
      var pos' := p + |strNew|;
      ReplaceInvStep(str, strOld, strNew, r0, pos, q, p, p', q', pos', r);
      q := q';
      pos := pos';
    }
    ReplaceInvDone(str, strOld, strNew, r, pos, q);
  }



  // ---------------------------------------------------------------------------
  // TrimLeft, TrimRight, Trim (StringUtils.cpp:242-283)
  // ---------------------------------------------------------------------------

  /** TrimLeft: drop the leading characters of chars. A string made only of such
      characters comes back unchanged, because `find_first_not_of` then gives npos. */
  function TrimLeft(str: string, chars: string := DefaultTrimChars): (r: string)
    ensures |r| <= |str| && r == str[|str| - |r|..]
    ensures AllIn(str, chars) ==> r == str
    ensures !AllIn(str, chars) ==>
              (r != [] && r[0] !in chars && forall k :: 0 <= k < |str| - |r| ==> str[k] in chars)
  {
    if |str| == 0 then str
    else
      var pos := FirstNotOf(str, chars, 0);
      if pos > 0 && pos != |str| then str[pos..] else str
  }

  /** TrimRight: drop the trailing characters of chars; as with TrimLeft, a string made
      only of such characters comes back unchanged. */
  function TrimRight(str: string, chars: string := DefaultTrimChars): (r: string)
    ensures |r| <= |str| && r == str[..|r|]
    ensures AllIn(str, chars) ==> r == str
    ensures !AllIn(str, chars) ==>
              (r != [] && r[|r| - 1] !in chars && forall k :: |r| <= k < |str| ==> str[k] in chars)
  {
    if |str| == 0 then str
    else
      match LastNotOf(str, chars, |str|)
      case None => str
      case Some(pos) => if pos < |str| then str[..pos + 1] else str
  }

  /** Trim: TrimLeft, then TrimRight. */
  function Trim(str: string, chars: string := DefaultTrimChars): (r: string)
    ensures AllIn(str, chars) ==> r == str
    ensures !AllIn(str, chars) ==> r != [] && r[0] !in chars && r[|r| - 1] !in chars
  {
    TrimRight(TrimLeft(str, chars), chars)
  }

  /** The result of Trim is a contiguous piece of its input. */
  lemma {:induction false} TrimIsSubstring(str: string, chars: string)
    ensures var i := |str| - |TrimLeft(str, chars)|;
            i + |Trim(str, chars)| <= |str| && Trim(str, chars) == str[i..i + |Trim(str, chars)|]
  {
    SuffixThenPrefix(str, TrimLeft(str, chars), Trim(str, chars));
  }

  /** A string that starts outside chars is its own TrimLeft. */
  lemma {:induction false} TrimLeftKeeps(s: string, chars: string)
    requires s != [] && s[0] !in chars
    ensures TrimLeft(s, chars) == s
  {
    assert FirstNotOf(s, chars, 0) == 0;
  }

  /** A string that ends outside chars is its own TrimRight. */
  lemma {:induction false} TrimRightKeeps(s: string, chars: string)
    requires s != [] && s[|s| - 1] !in chars
    ensures TrimRight(s, chars) == s
  {
    assert LastNotOf(s, chars, |s|) == Some(|s| - 1);
    assert s[..|s|] == s;
  }

  lemma {:induction false} TrimLeftIdempotent(str: string, chars: string)
    ensures TrimLeft(TrimLeft(str, chars), chars) == TrimLeft(str, chars)
  {
    if !AllIn(str, chars) {
      TrimLeftKeeps(TrimLeft(str, chars), chars);
    }
  }

  lemma {:induction false} TrimRightIdempotent(str: string, chars: string)
    ensures TrimRight(TrimRight(str, chars), chars) == TrimRight(str, chars)
  {
    if !AllIn(str, chars) {
      TrimRightKeeps(TrimRight(str, chars), chars);
    }
  }

  lemma {:induction false} TrimIdempotent(str: string, chars: string)
    ensures Trim(Trim(str, chars), chars) == Trim(str, chars)
  {
    var t := Trim(str, chars);
    if !AllIn(str, chars) {
      TrimLeftKeeps(t, chars);
      TrimRightKeeps(t, chars);
    }
  }

  // ---------------------------------------------------------------------------
  // IntToHex and Int32ToString (StringUtils.cpp:207-218, 289-297)
  // ---------------------------------------------------------------------------

  type Uint32 = x: int | 0 <= x < 0x1_0000_0000
  type Int32 = x: int | -0x8000_0000 <= x < 0x8000_0000
  type Int8 = x: int | -0x80 <= x < 0x80

  /** The digit a stream writes for d: `std::hex` uses lower-case letters. */
  function DigitChar(d: nat): char
    requires d < 16
  {
    if d < 10 then ('0' as int + d) as char else ('a' as int + d - 10) as char
  }

  /** The value of a digit character of either case; 0 for anything else. */
  function DigitValue(c: char): nat {
    if '0' <= c <= '9' then c as int - '0' as int
    else if 'a' <= c <= 'f' then c as int - 'a' as int + 10
    else if 'A' <= c <= 'F' then c as int - 'A' as int + 10
    else 0
  }

  predicate IsUpperHexDigit(c: char) {
    '0' <= c <= '9' || 'A' <= c <= 'F'
  }

  predicate IsLowerHexDigit(c: char) {
    '0' <= c <= '9' || 'a' <= c <= 'f'
  }

  lemma {:induction false} DigitRoundTrip(d: nat)
    requires d < 16
    ensures IsLowerHexDigit(DigitChar(d)) && DigitValue(DigitChar(d)) == d
    ensures d < 10 ==> '0' <= DigitChar(d) <= '9'
    ensures DigitChar(d) == '0' <==> d == 0
  {
  }

  /** Reading a digit string back, most significant digit first. */
  function NumeralValue(s: string, base: nat): nat
    decreases |s|
  {
    if s == [] then 0 else NumeralValue(s[..|s| - 1], base) * base + DigitValue(s[|s| - 1])
  }

  /** Division by the base, stated for the two bases the streams use. */
  lemma {:induction false} DivModBase(n: nat, base: nat)
    requires base == 10 || base == 16
    ensures n == (n / base) * base + n % base && n % base < base
    ensures n >= base ==> 0 < n / base < n
  {
    if base == 10 {
      assert n == (n / 10) * 10 + n % 10;
    } else {
      assert n == (n / 16) * 16 + n % 16;
    }
  }

  /** What a stream writes for n in the given base: its digits, most significant first,
      with no leading zero except for n == 0 itself. */
  function Numeral(n: nat, base: nat): (r: string)
    requires base == 10 || base == 16
    ensures r != []
    ensures forall k :: 0 <= k < |r| ==> IsLowerHexDigit(r[k]) && DigitValue(r[k]) < base
    ensures r[0] == '0' <==> n == 0
    ensures n == 0 ==> r == "0"
    decreases n
  {
    if n < base then
      DigitRoundTrip(n);
      [DigitChar(n)]
    else
      DivModBase(n, base);
      var q, d := n / base, n % base;
      var front := Numeral(q, base);
      DigitRoundTrip(d);
      assert q > 0;
      var r := front + [DigitChar(d)];
      assert r[0] == front[0];
      r
  }

  /** The digits read back give n. */
  lemma {:induction false} NumeralRoundTrip(n: nat, base: nat)
    requires base == 10 || base == 16
    ensures NumeralValue(Numeral(n, base), base) == n
    decreases n
  {
    DivModBase(n, base);
    DigitRoundTrip(n % base);
    if n >= base {
      var q := n / base;
      var r := Numeral(n, base);
      NumeralRoundTrip(q, base);
      assert r == Numeral(q, base) + [DigitChar(n % base)];
      assert r[..|r| - 1] == Numeral(q, base);
    } else {
      DigitRoundTrip(n);
    }
  }

  /** k fill characters '0'. */
  function Zeros(k: nat): (z: string)
    ensures |z| == k && forall i :: 0 <= i < k ==> z[i] == '0'
  {
    seq(k, _ => '0')
  }

  /** Leading zeros do not change the value. */
  lemma {:induction false} ZerosValue(k: nat, s: string, base: nat)
    ensures NumeralValue(Zeros(k) + s, base) == NumeralValue(s, base)
    decreases |s|
  {
    if s == [] {
      ZerosOnlyValue(k, base);
      assert Zeros(k) + s == Zeros(k);
    } else {
      ZerosValue(k, s[..|s| - 1], base);
      assert (Zeros(k) + s)[..|Zeros(k) + s| - 1] == Zeros(k) + s[..|s| - 1];
    }
  }

  lemma {:induction false} ZerosOnlyValue(k: nat, base: nat)
    ensures NumeralValue(Zeros(k), base) == 0
    decreases k
  {
    if k > 0 {
      ZerosOnlyValue(k - 1, base);
      assert Zeros(k)[..k - 1] == Zeros(k - 1);
    }
  }

  /** Upper-casing does not change the value of a digit string. */
  lemma {:induction false} UpperValue(s: string, base: nat)
    ensures NumeralValue(UpperString(s), base) == NumeralValue(s, base)
    decreases |s|
  {
    if s != [] {
      UpperValue(s[..|s| - 1], base);
      assert UpperString(s)[..|s| - 1] == UpperString(s[..|s| - 1]);
    }
  }

  /** `std::setw(width)` with `std::setfill('0')`: pad on the left up to width. */
  function PadLeft(s: string, width: nat): (r: string)
    ensures |r| == if |s| < width then width else |s|
    ensures r == Zeros(|r| - |s|) + s
  {
    if |s| < width then Zeros(width - |s|) + s else Zeros(0) + s
  }

  /** IntToHex: the upper-case hex digits of iDecimal, zero-padded on the left to
      iMinLen when iMinLen is positive; never empty, so 0 gives at least "0". */
  function IntToHex(iDecimal: Uint32, iMinLen: Int8 := 0): (r: string)
    ensures r != []
    ensures forall k :: 0 <= k < |r| ==> IsUpperHexDigit(r[k])
    ensures iMinLen > 0 ==> |r| >= iMinLen
    ensures |r| > 1 && r[0] == '0' ==> |r| == iMinLen
  {
    var hex := Numeral(iDecimal, 16);
    var padded := if iMinLen > 0 then PadLeft(hex, iMinLen) else hex;
    PaddedDigits(hex, if iMinLen > 0 then iMinLen else 0);
    UpperHexDigits(padded);
    UpperString(padded)
  }

  /** Zero padding keeps a numeral made of hex digits, and a leading '0' comes from the
      padding unless the numeral is "0" itself. */
  lemma {:induction false} PaddedDigits(hex: string, width: nat)
    requires hex != [] && forall k :: 0 <= k < |hex| ==> IsLowerHexDigit(hex[k])
    requires hex[0] == '0' ==> hex == "0"
    ensures var p := PadLeft(hex, width);
            p != [] && (forall k :: 0 <= k < |p| ==> IsLowerHexDigit(p[k])) &&
            (|p| > 1 && p[0] == '0' ==> |p| == width)
  {
    var p := PadLeft(hex, width);
    var z := Zeros(|p| - |hex|);
    forall k | 0 <= k < |p| ensures IsLowerHexDigit(p[k]) {
      if k < |z| {
        assert p[k] == z[k];
      } else {
        assert p[k] == hex[k - |z|];
      }
    }
  }

  /** Upper-casing hex digits gives hex digits, and keeps a '0' a '0'. */
  lemma {:induction false} UpperHexDigits(s: string)
    requires forall k :: 0 <= k < |s| ==> IsLowerHexDigit(s[k])
    ensures forall k :: 0 <= k < |s| ==> IsUpperHexDigit(UpperString(s)[k])
    ensures s != [] ==> (UpperString(s)[0] == '0' <==> s[0] == '0')
  {
    var u := UpperString(s);
    forall k | 0 <= k < |s| ensures IsUpperHexDigit(u[k]) && (u[k] == '0' <==> s[k] == '0') {
      assert u[k] == UpperChar(s[k]);
    }
  }

  /** The hex text reads back as iDecimal. */
  lemma {:induction false} IntToHexRoundTrip(iDecimal: Uint32, iMinLen: Int8)
    ensures NumeralValue(IntToHex(iDecimal, iMinLen), 16) == iDecimal
  {
    var hex := Numeral(iDecimal, 16);
    NumeralRoundTrip(iDecimal, 16);
    if iMinLen > 0 {
      var p := PadLeft(hex, iMinLen);
      ZerosValue(|p| - |hex|, hex, 16);
      UpperValue(p, 16);
    } else {
      UpperValue(hex, 16);
    }
  }

  /** Int32ToString: decimal digits, with a leading '-' exactly for negative values, and
      no leading zero: 0 is "0" and no other value starts its digits with '0'. */
  function Int32ToString(iValue: Int32): (r: string)
    ensures r != [] && (r[0] == '-' <==> iValue < 0)
    ensures forall k :: 0 <= k < |r| ==> '0' <= r[k] <= '9' || (k == 0 && r[k] == '-')
    ensures var digits := if iValue < 0 then r[1..] else r;
            digits != [] && (digits[0] == '0' <==> iValue == 0) && (iValue == 0 ==> r == "0")
  {
    var digits := Numeral(if iValue < 0 then -(iValue as int) else iValue as int, 10);
    assert forall k :: 0 <= k < |digits| ==> '0' <= digits[k] <= '9';
    if iValue < 0 then "-" + digits else digits
  }

  /** A signed decimal reading: an optional '-' and digits. */
  function SignedValue(s: string): int {
    if s != [] && s[0] == '-' then -(NumeralValue(s[1..], 10) as int) else NumeralValue(s, 10)
  }

  /** The decimal text reads back as iValue. */
  lemma {:induction false} Int32ToStringRoundTrip(iValue: Int32)
    ensures SignedValue(Int32ToString(iValue)) == iValue
  {
    var n: nat := if iValue < 0 then -(iValue as int) else iValue as int;
    NumeralRoundTrip(n, 10);
    if iValue < 0 {
      assert Int32ToString(iValue)[1..] == Numeral(n, 10);
    }
  }
}
