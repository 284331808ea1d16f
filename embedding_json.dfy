/**
 * The base-data file reader of MyUtil.parseJSON: every entry of the
 * "embedding" array is a string whose first character is dropped and
 * whose rest is a '|'-separated list of decimal numbers, read into a
 * 256-slot float vector and added to a fresh Person.
 *
 * Number parsing is a parameter (`Parse`): a function from a token to
 * its value, or None when Float.parseFloat would throw. Whatever it does,
 * an empty token never parses.
 */
module EmbeddingJson {
  import opened Wrappers
  import opened Enrollment

  /** The unchecked exceptions the reading loop can raise (none of them is caught). */
  datatype Failure =
    | StringIndexOutOfBounds  // substring(1) of an empty entry
    | NumberFormat            // a token Float.parseFloat rejects
    | ArrayIndexOutOfBounds   // a 257th token

  datatype Result<T> = Ok(value: T) | Err(failure: Failure)

  type Parse = string -> Option<real>

  /** Float.parseFloat on a token. */
  function ParseFloat(parse: Parse, token: string): (v: Option<real>)
    ensures token == [] ==> v == None
  {
    if token == [] then None else parse(token)
  }

  /** The first position at or after j holding a '|', or the end of s. */
  function NextPipe(s: string, j: nat): (e: nat)
    requires j <= |s|
    ensures j <= e <= |s|
    ensures forall k :: j <= k < e ==> s[k] != '|'
    ensures e < |s| ==> s[e] == '|'
    decreases |s| - j
  {
    if j == |s| || s[j] == '|' then j else NextPipe(s, j + 1)
  }

  /** The tokens the outer loop reads when it starts at position j. */
  function TokensFrom(s: string, j: nat): seq<string>
    decreases |s| - j
  {
    if j >= |s| then []
    else
      var e := NextPipe(s, j);
      [s[j..e]] + TokensFrom(s, e + 1)
  }

  /** The tokens of a whole entry body. */
  function Tokens(s: string): seq<string>
  {
    TokensFrom(s, 0)
  }

  /** The tokens from index k on, written into `emb` from slot k on, as the loop does. */
  function Fill(tokens: seq<string>, k: nat, emb: seq<real>, parse: Parse): Result<seq<real>>
    decreases |tokens| - k
  {
    if k >= |tokens| then Ok(emb)
    else match ParseFloat(parse, tokens[k])
      case None => Err(NumberFormat)
      case Some(v) =>
        if k >= |emb| then Err(ArrayIndexOutOfBounds)
        else Fill(tokens, k + 1, emb[k := v], parse)
  }

  /** One entry of the "embedding" array, decoded. */
  function DecodeEntry(entry: string, parse: Parse): Result<Embedding>
  {
    if entry == [] then Err(StringIndexOutOfBounds)
    else Fill(Tokens(entry[1..]), 0, Zero(), parse)
  }

  /** All entries decoded in order; the first failure ends the reading. */
  function DecodeAll(entries: seq<string>, parse: Parse): Result<seq<Embedding>>
  {
    if entries == [] then Ok([])
    else match DecodeAll(entries[..|entries| - 1], parse)
      case Err(f) => Err(f)
      case Ok(es) =>
        match DecodeEntry(entries[|entries| - 1], parse)
        case Err(f) => Err(f)
        case Ok(e) => Ok(es + [e])
  }

  /** The '|'-joined text of some tokens. */
  function Join(tokens: seq<string>): string
  {
    if tokens == [] then []
    else if |tokens| == 1 then tokens[0]
    else tokens[0] + "|" + Join(tokens[1..])
  }

  ghost predicate PipeFree(t: string)
  {
    forall k :: 0 <= k < |t| ==> t[k] != '|'
  }

  // ---------------------------------------------------------------- tokens

  /** NextPipe is the position the inner loop stops at: no '|' before it, a '|' or the end at it. */
  lemma {:induction false} NextPipeIs(s: string, j: nat, e: nat)
    requires j <= e <= |s|
    requires forall k :: j <= k < e ==> s[k] != '|'
    requires e == |s| || s[e] == '|'
    ensures NextPipe(s, j) == e
    decreases e - j
  {
    if j < e {
      NextPipeIs(s, j + 1, e);
    }
  }

  /** No token holds a '|', and no token is longer than the text it came from. */
  lemma {:induction false} TokensArePipeFree(s: string, j: nat)
    ensures forall i :: 0 <= i < |TokensFrom(s, j)| ==> PipeFree(TokensFrom(s, j)[i])
    decreases |s| - j
  {
    if j < |s| {
      TokensArePipeFree(s, NextPipe(s, j) + 1);
    }
  }

  /** A text with no '|' is one token, itself. */
  lemma NoPipeIsOneToken(s: string)
    requires s != [] && PipeFree(s)
    ensures Tokens(s) == [s]
  {
    NextPipeIs(s, 0, |s|);
    assert s[0..|s|] == s;
    assert TokensFrom(s, |s| + 1) == [];
    assert TokensFrom(s, 0) == [s] + [];
  }

  /** Where the next '|' lies depends only on the text from the start position on. */
  lemma NextPipeSame(t: string, i: nat, s: string, j: nat)
    requires i <= |t| && j <= |s| && t[i..] == s[j..]
    ensures NextPipe(t, i) - i == NextPipe(s, j) - j
  {
    var e := NextPipe(s, j);
    var e' := i + (e - j);
    forall k | i <= k < e'
      ensures t[k] != '|'
    {
      assert t[k] == t[i..][k - i] == s[j..][k - i] == s[j + (k - i)];
    }
    if e' < |t| {
      assert t[e'] == t[i..][e - j] == s[j..][e - j] == s[e];
    }
    NextPipeIs(t, i, e');
  }

  /** The tokens read from a position depend only on the text from that position on. */
  lemma {:induction false} TokensSame(t: string, i: nat, s: string, j: nat)
    requires i <= |t| && j <= |s| && t[i..] == s[j..]
    ensures TokensFrom(t, i) == TokensFrom(s, j)
    decreases |s| - j
  {
    if j < |s| {
      var e := NextPipe(s, j);
      NextPipeSame(t, i, s, j);
      var e' := NextPipe(t, i);
      SameSuffixSplit(t, i, s, j, e - j);
      if e < |s| {
        TokensSame(t, e' + 1, s, e + 1);
      } else {
        assert e' + 1 > |t|;
        assert TokensFrom(t, e' + 1) == [] == TokensFrom(s, e + 1);
      }
      TokensUnfold(t, i);
      TokensUnfold(s, j);
    }
  }

  /** Two texts that agree from i and from j agree on the next n characters and on what follows them. */
  lemma SameSuffixSplit(t: string, i: nat, s: string, j: nat, n: nat)
    requires i <= |t| && j + n <= |s| && t[i..] == s[j..]
    ensures |t| - i == |s| - j && t[i..i + n] == s[j..j + n]
    ensures j + n < |s| ==> t[i + n + 1..] == s[j + n + 1..]
  {
    assert |t[i..]| == |s[j..]|;
    assert t[i..i + n] == t[i..][..n] == s[j..][..n] == s[j..j + n];
    if j + n < |s| {
      assert t[i + n + 1..] == t[i..][n + 1..] == s[j..][n + 1..] == s[j + n + 1..];
    }
  }

  /** Reading behind a prefix is reading the rest on its own. */
  lemma TokensShift(p: string, s: string)
    ensures TokensFrom(p + s, |p|) == Tokens(s)
  {
    assert (p + s)[|p|..] == s == s[0..];
    TokensSame(p + s, |p|, s, 0);
  }

  /** One step of the outer loop. */
  lemma TokensUnfold(s: string, j: nat)
    requires j < |s|
    ensures TokensFrom(s, j) == [s[j..NextPipe(s, j)]] + TokensFrom(s, NextPipe(s, j) + 1)
  {
  }

  /** Joining non-empty '|'-free tokens and reading them back gives the same tokens. */
  lemma {:induction false} JoinRoundTrip(tokens: seq<string>)
    requires forall i :: 0 <= i < |tokens| ==> tokens[i] != [] && PipeFree(tokens[i])
    ensures Tokens(Join(tokens)) == tokens
    decreases |tokens|
  {
    if tokens == [] {
      assert Join(tokens) == [];
    } else {
      var t := tokens[0];
      var s := Join(tokens);
      if |tokens| == 1 {
        NoPipeIsOneToken(t);
      } else {
        var p := t + "|";
        assert s == p + Join(tokens[1..]);
        assert s[|t|] == '|';
        NextPipeIs(s, 0, |t|);
        assert s[0..|t|] == t;
        JoinRoundTrip(tokens[1..]);
        TokensShift(p, Join(tokens[1..]));
        assert Tokens(s) == [t] + TokensFrom(s, |p|);
        assert tokens == [t] + tokens[1..];
      }
    }
  }

  /** A '|' added after a last token adds no token. */
  lemma {:induction false} TrailingPipeAddsNothing(s: string, j: nat)
    requires j < |s| && s[|s| - 1] != '|'
    ensures TokensFrom(s + "|", j) == TokensFrom(s, j)
    decreases |s| - j
  {
    var t := s + "|";
    var e := NextPipe(s, j);
    forall k | j <= k < e
      ensures t[k] != '|'
    {
      assert t[k] == s[k];
    }
    assert t[|s|] == '|';
    NextPipeIs(t, j, e);
    assert t[j..e] == s[j..e];
    if e < |s| {
      TrailingPipeAddsNothing(s, e + 1);
    } else {
      assert TokensFrom(t, e + 1) == [] && TokensFrom(s, e + 1) == [];
    }
    TokensUnfold(t, j);
    TokensUnfold(s, j);
  }

  /** Two '|' in a row make an empty token, which no parser accepts. */
  lemma DoublePipeMakesEmptyToken(a: string, b: string)
    requires a != [] && PipeFree(a)
    ensures |Tokens(a + "||" + b)| >= 2
    ensures Tokens(a + "||" + b)[0] == a && Tokens(a + "||" + b)[1] == []
  {
    var s := a + "||" + b;
    NextPipeIs(s, 0, |a|);
    assert s[0..|a|] == a;
    assert s[|a| + 1] == '|';
    NextPipeIs(s, |a| + 1, |a| + 1);
    var empty: string := [];
    assert s[|a| + 1..|a| + 1] == empty;
    assert TokensFrom(s, |a| + 1) == [empty] + TokensFrom(s, |a| + 2);
  }

  /** A leading '|' makes an empty first token. */
  lemma LeadingPipeMakesEmptyToken(b: string)
    ensures |Tokens("|" + b)| >= 1 && Tokens("|" + b)[0] == []
  {
    NextPipeIs("|" + b, 0, 0);
  }

  // ---------------------------------------------------------------- decoding

  /**
   * Filling from slot k succeeds exactly when the remaining tokens all parse
   * and fit; the result then holds the parsed values in their slots and
   * leaves every other slot as it was.
   */
  lemma {:induction false} FillMeaning(tokens: seq<string>, k: nat, emb: seq<real>, parse: Parse)
    requires k <= |tokens| && k <= |emb|
    ensures Fill(tokens, k, emb, parse).Ok? <==>
      |tokens| <= |emb| && forall i :: k <= i < |tokens| ==> ParseFloat(parse, tokens[i]).Some?
    ensures Fill(tokens, k, emb, parse).Ok? ==>
      var r := Fill(tokens, k, emb, parse).value;
      |r| == |emb| &&
      (forall i :: k <= i < |tokens| ==> r[i] == ParseFloat(parse, tokens[i]).value) &&
      (forall i :: 0 <= i < |r| && !(k <= i < |tokens|) ==> r[i] == emb[i])
    decreases |tokens| - k
  {
    if k < |tokens| {
      match ParseFloat(parse, tokens[k])
      case None =>
      case Some(v) =>
        if k < |emb| {
          FillMeaning(tokens, k + 1, emb[k := v], parse);
        }
    }
  }

  /**
   * A failed fill is an ArrayIndexOutOfBounds exactly when there are more
   * tokens than slots and every token up to the first one past the end
   * parses; otherwise it is a NumberFormat.
   */
  lemma {:induction false} FillFailure(tokens: seq<string>, k: nat, emb: seq<real>, parse: Parse)
    requires k <= |tokens| && k <= |emb|
    requires Fill(tokens, k, emb, parse).Err?
    ensures Fill(tokens, k, emb, parse).failure == ArrayIndexOutOfBounds <==>
      |emb| < |tokens| && forall m :: k <= m <= |emb| ==> ParseFloat(parse, tokens[m]).Some?
    ensures Fill(tokens, k, emb, parse).failure != StringIndexOutOfBounds
    decreases |tokens| - k
  {
    match ParseFloat(parse, tokens[k])
    case None =>
    case Some(v) =>
      if k < |emb| {
        FillFailure(tokens, k + 1, emb[k := v], parse);
      }
  }

  /**
   * An entry decodes exactly when it is non-empty and the tokens after its
   * first character number at most 256 and all parse; the embedding then
   * holds the parsed values in order, padded with zeros.
   */
  lemma DecodeEntryMeaning(entry: string, parse: Parse)
    ensures entry == [] ==> DecodeEntry(entry, parse) == Err(StringIndexOutOfBounds)
    ensures entry != [] ==>
      var tokens := Tokens(entry[1..]);
      (DecodeEntry(entry, parse).Ok? <==>
        |tokens| <= EmbeddingSize && forall i :: 0 <= i < |tokens| ==> ParseFloat(parse, tokens[i]).Some?) &&
      (DecodeEntry(entry, parse).Ok? ==>
        var e := DecodeEntry(entry, parse).value;
        |e| == EmbeddingSize &&
        (forall i :: 0 <= i < |tokens| ==> e[i] == ParseFloat(parse, tokens[i]).value) &&
        (forall i :: |tokens| <= i < |e| ==> e[i] == 0.0))
  {
    if entry != [] {
      FillMeaning(Tokens(entry[1..]), 0, Zero(), parse);
    }
  }

  /** The decoded list holds one embedding per entry, each the decoding of its entry. */
  lemma {:induction false} DecodeAllMeaning(entries: seq<string>, parse: Parse)
    ensures DecodeAll(entries, parse).Ok? <==>
      forall i :: 0 <= i < |entries| ==> DecodeEntry(entries[i], parse).Ok?
    ensures DecodeAll(entries, parse).Ok? ==>
      |DecodeAll(entries, parse).value| == |entries| &&
      forall i :: 0 <= i < |entries| ==> DecodeAll(entries, parse).value[i] == DecodeEntry(entries[i], parse).value
  {
    if entries != [] {
      var init := entries[..|entries| - 1];
      DecodeAllMeaning(init, parse);
      assert forall i :: 0 <= i < |init| ==> init[i] == entries[i];
    }
  }

  /** Once a prefix of the entries fails, the whole list fails the same way. */
  lemma {:induction false} DecodeAllStopsAtFailure(entries: seq<string>, n: nat, parse: Parse)
    requires n <= |entries| && DecodeAll(entries[..n], parse).Err?
    ensures DecodeAll(entries, parse) == DecodeAll(entries[..n], parse)
    decreases |entries| - n
  {
    if n == |entries| {
      assert entries[..n] == entries;
    } else {
      var init := entries[..|entries| - 1];
      assert init[..n] == entries[..n];
      DecodeAllStopsAtFailure(init, n, parse);
    }
  }

  // ---------------------------------------------------------------- the loops

  /** The token the outer loop reads next is the one up to the next '|'. */
  lemma TokenStep(tokens: seq<string>, c: nat, s: string, j: nat)
    requires c <= |tokens| && j < |s| && tokens[c..] == TokensFrom(s, j)
    ensures c < |tokens| && tokens[c] == s[j..NextPipe(s, j)]
    ensures tokens[c + 1..] == TokensFrom(s, NextPipe(s, j) + 1)
  {
    assert tokens[c..] == [s[j..NextPipe(s, j)]] + TokensFrom(s, NextPipe(s, j) + 1);
    assert tokens[c + 1..] == tokens[c..][1..];
  }

  /** Writing a parsed token into a free slot is one step of the fill. */
  lemma FillStep(tokens: seq<string>, c: nat, emb: seq<real>, parse: Parse)
    requires c < |tokens| && c < |emb| && ParseFloat(parse, tokens[c]).Some?
    ensures Fill(tokens, c, emb, parse) == Fill(tokens, c + 1, emb[c := ParseFloat(parse, tokens[c]).value], parse)
  {
  }

  /** The inner loop of parseJSON: the characters up to the next '|' or the end. */
  method ReadToken(str: string, start: nat) returns (num: string, j: nat)
    requires start < |str|
    ensures j == NextPipe(str, start) && num == str[start..j]
  {
    num := "";
    j := start;
    while str[j] != '|'
      invariant start <= j < |str|
      invariant num == str[start..j]
      invariant forall k :: start <= k < j ==> str[k] != '|'
      decreases |str| - j
    {
      num := num + [str[j]];
      j := j + 1;
      assert num == str[start..j];
      if j >= |str| {
        break;
      }
    }
    NextPipeIs(str, start, j);
  }

  /** The body of one iteration of parseJSON's outer loop: one entry into a float vector. */
  method ParseEntry(entry: string, parse: Parse) returns (r: Result<Embedding>)
    ensures r == DecodeEntry(entry, parse)
  {
    if |entry| == 0 {
      return Err(StringIndexOutOfBounds);
    }
    var str := entry[1..];
    var embedding := new real[EmbeddingSize](_ => 0.0);
    var counter := 0;
    var j := 0;
    ghost var tokens := Tokens(str);
    assert embedding[..] == Zero();
    while j < |str|
      invariant 0 <= j <= |str| + 1
      invariant 0 <= counter <= |tokens| && counter <= embedding.Length
      invariant tokens[counter..] == TokensFrom(str, j)
      invariant Fill(tokens, 0, Zero(), parse) == Fill(tokens, counter, embedding[..], parse)
      decreases |str| + 1 - j
    {
      ghost var start := j;
      var num;
      num, j := ReadToken(str, j);
      TokenStep(tokens, counter, str, start);
      j := j + 1;
      ghost var rest := tokens[counter + 1..];
      assert rest == TokensFrom(str, j);
      var value := ParseFloat(parse, num);
      if value.None? {
        return Err(NumberFormat);
      }
      if counter >= embedding.Length {
        return Err(ArrayIndexOutOfBounds);
      }
      FillStep(tokens, counter, embedding[..], parse);
      embedding[counter] := value.value;
      counter := counter + 1;
      assert tokens[counter..] == rest;
    }
    assert tokens[counter..] == [];
    r := Ok(embedding[..]);
  }

  /** What parseJSON hands back. */
  datatype Loaded =
    | Loaded(person: Person)
    | NoData                 // a JSONException: caught, null is returned
    | Crashed(failure: Failure)

  /**
   * parseJSON: `entries` is the "embedding" array's entries as strings, or
   * None when the file is not a JSON object with such an array. Each entry
   * is decoded and added to a new Person, in order.
   */
  method ParseJson(entries: Option<seq<string>>, parse: Parse) returns (r: Loaded)
    ensures entries.None? ==> r == NoData
    ensures entries.Some? && DecodeAll(entries.value, parse).Err? ==>
      r == Crashed(DecodeAll(entries.value, parse).failure)
    ensures entries.Some? && DecodeAll(entries.value, parse).Ok? ==>
      r.Loaded? && fresh(r.person) && fresh(r.person.embeddings) && r.person.Valid() &&
      r.person.history == DecodeAll(entries.value, parse).value
  {
    var person := new Person();
    if entries.None? {
      return NoData;
    }
    var es := entries.value;
    var i := 0;
    while i < |es|
      invariant 0 <= i <= |es|
      invariant fresh(person) && fresh(person.embeddings) && person.Valid()
      invariant DecodeAll(es[..i], parse) == Ok(person.history)
      decreases |es| - i
    {
      var embedding := ParseEntry(es[i], parse);
      assert es[..i + 1][..i] == es[..i];
      if embedding.Err? {
        DecodeAllStopsAtFailure(es, i + 1, parse);
        return Crashed(embedding.failure);
      }
      person.AddEmbedding(embedding.value);
      i := i + 1;
    }
    assert es[..i] == es;
    r := Loaded(person);
  }
}
