/**
 Splitting an order-entry message into tokens at every single space. Empty
 tokens are kept: two spaces in a row, or a leading or trailing space, give
 an empty token, so a message with n spaces always yields n + 1 tokens.
 */
module Tokenizer {

  /** Position of the first space in `m`, or `|m|` when there is none. */
  function SpaceAt(m: string): (k: nat)
    ensures k <= |m|
    ensures k < |m| ==> m[k] == ' '
  {
    if |m| == 0 || m[0] == ' ' then 0 else 1 + SpaceAt(m[1..])
  }

  /** No space comes before the first space. */
  lemma {:induction false} SpaceAtFirst(m: string)
    ensures forall j :: 0 <= j < SpaceAt(m) ==> m[j] != ' '
  {
    if |m| > 0 && m[0] != ' ' {
      SpaceAtFirst(m[1..]);
      forall j | 0 < j < SpaceAt(m) ensures m[j] != ' ' {
        assert m[j] == m[1..][j - 1];
      }
    }
  }

  /** Reference split: the text up to the first space, then the split of what follows it. */
  function Split(m: string): seq<string>
    decreases |m|
  {
    var k := SpaceAt(m);
    if k == |m| then [m] else [m[..k]] + Split(m[k + 1..])
  }

  /** The tokens glued back together with one space between neighbours. */
  function Join(ts: seq<string>): string {
    if |ts| == 0 then ""
    else if |ts| == 1 then ts[0]
    else ts[0] + " " + Join(ts[1..])
  }

  function Spaces(m: string): nat {
    if |m| == 0 then 0 else (if m[0] == ' ' then 1 else 0) + Spaces(m[1..])
  }

  /**
   The tokenizer's loop: scan left to right, cutting a token at each space and
   starting the next one just after it; the text after the last space is the
   final token.
   */
  method Tokenize(message: string) returns (tokens: seq<string>)
    ensures tokens == Split(message)
    ensures |tokens| == Spaces(message) + 1
    ensures Join(tokens) == message
    ensures forall t :: t in tokens ==> ' ' !in t
  {
    tokens := [];
    var start := 0;
    var i := 0;
    while i < |message|
      invariant 0 <= start <= i <= |message|
      invariant ' ' !in message[start..i]
      invariant tokens + Split(message[start..]) == Split(message)
    {
      if message[i] == ' ' {
        CutStep(message, tokens, start, i);
        tokens := tokens + [message[start..i]];
        start := i + 1;
      } else {
        Widen(message, start, i);
      }
      i := i + 1;
    }
    CutStep(message, tokens, start, i);
    SplitFacts(message);
    tokens := tokens + [message[start..]];
  }

  /** A non-space at `i` extends a space-free stretch ending there by one. */
  lemma Widen(m: string, a: nat, i: nat)
    requires a <= i < |m| && m[i] != ' ' && ' ' !in m[a..i]
    ensures ' ' !in m[a..i + 1]
  {
    assert m[a..i + 1] == m[a..i] + [m[i]];
  }

  /** One cut of the tokenizer's loop, at the space at `i` or at the end of the message. */
  lemma CutStep(m: string, tokens: seq<string>, start: nat, i: nat)
    requires start <= i <= |m| && (i < |m| ==> m[i] == ' ')
    requires ' ' !in m[start..i]
    requires tokens + Split(m[start..]) == Split(m)
    ensures i < |m| ==> (tokens + [m[start..i]]) + Split(m[i + 1..]) == Split(m)
    ensures i == |m| ==> tokens + [m[start..]] == Split(m)
  {
    NoSpaceSlice(m, start, i);
    SplitCut(m, start, i);
    if i < |m| {
      Regroup(tokens, m[start..i], Split(m[i + 1..]));
    }
  }

  lemma Regroup<T>(a: seq<T>, x: T, c: seq<T>)
    ensures (a + [x]) + c == a + ([x] + c)
  {
  }

  lemma NoSpaceSlice(m: string, a: nat, b: nat)
    requires a <= b <= |m| && ' ' !in m[a..b]
    ensures forall j :: a <= j < b ==> m[j] != ' '
  {
    forall j | a <= j < b ensures m[j] != ' ' {
      assert m[a..b][j - a] == m[j];
      assert m[a..b][j - a] in m[a..b];
    }
  }

  /** The three facts about the reference split that the tokenizer promises. */
  lemma SplitFacts(m: string)
    ensures |Split(m)| == Spaces(m) + 1
    ensures Join(Split(m)) == m
    ensures forall t :: t in Split(m) ==> ' ' !in t
  {
    SplitCount(m);
    SplitJoin(m);
    SplitNoSpace(m);
  }

  /** Cutting the remainder `m[start..]` at its first space, at `i`, or at its end when `i == |m|`. */
  lemma SplitCut(m: string, start: nat, i: nat)
    requires start <= i <= |m| && (i < |m| ==> m[i] == ' ')
    requires forall j :: start <= j < i ==> m[j] != ' '
    ensures i < |m| ==> Split(m[start..]) == [m[start..i]] + Split(m[i + 1..])
    ensures i == |m| ==> Split(m[start..]) == [m[start..]]
  {
    var rest := m[start..];
    SpaceAtIs(rest, i - start);
    if i < |m| {
      assert rest[..i - start] == m[start..i];
      assert rest[i - start + 1..] == m[i + 1..];
    }
  }

  /** `k` is where the first space is when nothing before it is a space and there is one there (or the text ends). */
  lemma {:induction false} SpaceAtIs(m: string, k: nat)
    requires k <= |m| && (k < |m| ==> m[k] == ' ')
    requires forall j :: 0 <= j < k ==> m[j] != ' '
    ensures SpaceAt(m) == k
  {
    if k > 0 {
      assert m[0] != ' ';
      SpaceAtIs(m[1..], k - 1);
    }
  }

  lemma {:induction false} SpacesAppend(a: string, c: string)
    ensures Spaces(a + c) == Spaces(a) + Spaces(c)
  {
    if |a| == 0 {
      assert a + c == c;
    } else {
      assert (a + c)[1..] == a[1..] + c;
      SpacesAppend(a[1..], c);
    }
  }

  lemma {:induction false} NoSpaces(m: string)
    requires forall j :: 0 <= j < |m| ==> m[j] != ' '
    ensures Spaces(m) == 0
  {
    if |m| > 0 {
      NoSpaces(m[1..]);
    }
  }

  /** One token per space, plus one. */
  lemma {:induction false} SplitCount(m: string)
    ensures |Split(m)| == Spaces(m) + 1
    decreases |m|
  {
    var k := SpaceAt(m);
    SpaceAtFirst(m);
    if k == |m| {
      NoSpaces(m);
    } else {
      SplitCount(m[k + 1..]);
      NoSpaces(m[..k]);
      assert m == m[..k] + [' '] + m[k + 1..];
      SpacesAppend(m[..k] + [' '], m[k + 1..]);
      SpacesAppend(m[..k], [' ']);
    }
  }

  /** Joining the tokens gives back the message. */
  lemma {:induction false} SplitJoin(m: string)
    ensures Join(Split(m)) == m
    decreases |m|
  {
    var k := SpaceAt(m);
    if k < |m| {
      var head, rest := m[..k], m[k + 1..];
      assert Split(m) == [head] + Split(rest);
      SplitJoin(rest);
      SplitNonEmpty(rest);
      JoinCons(head, Split(rest));
      CutAt(m, k);
    }
  }

  lemma CutAt(m: string, k: nat)
    requires k < |m| && m[k] == ' '
    ensures m == m[..k] + " " + m[k + 1..]
  {
  }

  lemma JoinCons(t: string, ts: seq<string>)
    requires |ts| > 0
    ensures Join([t] + ts) == t + " " + Join(ts)
  {
    assert ([t] + ts)[1..] == ts;
  }

  lemma SplitNonEmpty(m: string)
    ensures |Split(m)| > 0
  {
  }

  /** No token contains a space. */
  lemma {:induction false} SplitNoSpace(m: string)
    ensures forall t :: t in Split(m) ==> ' ' !in t
    decreases |m|
  {
    var k := SpaceAt(m);
    SpaceAtFirst(m);
    if k < |m| {
      SplitNoSpace(m[k + 1..]);
      assert forall t :: t in Split(m) ==> t == m[..k] || t in Split(m[k + 1..]);
    }
  }

  /** The other direction: any non-empty list of space-free tokens is what splitting its join gives back. */
  lemma {:induction false} JoinSplit(ts: seq<string>)
    requires |ts| > 0 && forall t :: t in ts ==> ' ' !in t
    ensures Split(Join(ts)) == ts
  {
    var t := ts[0];
    assert t in ts;
    NoSpaceChars(t);
    if |ts| == 1 {
      SpaceAtIs(t, |t|);
    } else {
      var rest := Join(ts[1..]);
      assert ts == [t] + ts[1..];
      JoinCons(t, ts[1..]);
      var m := t + " " + rest;
      JoinParts(t, rest);
      SpaceAtIs(m, |t|);
      assert Split(m) == [t] + Split(rest);
      assert forall u :: u in ts[1..] ==> u in ts;
      JoinSplit(ts[1..]);
    }
  }

  lemma NoSpaceChars(t: string)
    requires ' ' !in t
    ensures forall j :: 0 <= j < |t| ==> t[j] != ' '
  {
    forall j | 0 <= j < |t| ensures t[j] != ' ' {
      assert t[j] in t;
    }
  }

  lemma JoinParts(a: string, rest: string)
    ensures (a + " " + rest)[..|a|] == a && (a + " " + rest)[|a| + 1..] == rest
    ensures (a + " " + rest)[|a|] == ' '
    ensures forall j :: 0 <= j < |a| ==> (a + " " + rest)[j] == a[j]
  {
  }
}
