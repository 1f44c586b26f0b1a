/**
 * The cookie jar of the HTTP client as a value: a JavaScript `Map` from
 * cookie name to cookie value, which remembers the order in which its keys
 * were first inserted. `Set` is `Map.prototype.set`; `ParseLine` is the
 * parse of one `Set-Cookie` line; `SetAll` is the effect of a batch of
 * parsed lines; `Serialize` is the `Cookie` request header built from the jar.
 */
module CookieJar {
  import opened Wrappers
  import opened Strings

  /** A stored value: a string, or `undefined` when the cookie text had no '='. */
  datatype CookieValue = Undefined | Text(s: string)

  /** How a template literal renders a stored value. */
  function ValueText(v: CookieValue): string
  {
    match v
    case Undefined => "undefined"
    case Text(s) => s
  }

  /** The pair one `Set-Cookie` line contributes. */
  datatype Cookie = Cookie(name: string, value: CookieValue)

  /** The keys in first-insertion order, and what each key maps to. */
  datatype Jar = Jar(order: seq<string>, store: map<string, CookieValue>)

  predicate Distinct(s: seq<string>)
  {
    forall i, k :: 0 <= i < k < |s| ==> s[i] != s[k]
  }

  /** Every key appears once in the order, and the order lists exactly the keys. */
  ghost predicate Valid(j: Jar)
  {
    Distinct(j.order) && forall n :: n in j.store <==> n in j.order
  }

  /** `new Map()`. */
  function Empty(): (r: Jar)
    ensures Valid(r)
    ensures forall n :: n !in r.store
    ensures Serialize(r) == ""
  {
    Jar([], map[])
  }

  /**
   * `Map.prototype.set`: the key now maps to `v` and no other key changes.
   * A key already present keeps its place in the order; a new key goes last.
   */
  function Set(j: Jar, name: string, v: CookieValue): (r: Jar)
    requires Valid(j)
    ensures Valid(r)
    ensures name in r.store && r.store[name] == v
    ensures forall n :: n != name ==> (n in r.store <==> n in j.store)
    ensures forall n :: n != name && n in j.store ==> r.store[n] == j.store[n]
    ensures name in j.store ==> r.order == j.order
    ensures name !in j.store ==> r.order == j.order + [name]
  {
    Jar(if name in j.store then j.order else j.order + [name], j.store[name := v])
  }

  /**
   * The pair of one `Set-Cookie` line: the line is cut at the first "; "
   * and the first piece is split on '='; the name is the first field and
   * the value the second, `undefined` when there is none.
   */
  function ParseLine(line: string): (r: Cookie)
    ensures r.name <= line
    ensures '=' !in r.name
    ensures r.value.Text? ==> '=' !in r.value.s
  {
    var cookie := Split(line, "; ")[0];
    var fields := Split(cookie, "=");
    SplitFirstPiece(line, "; ");
    SplitFirstPiece(cookie, "=");
    NoOccurrenceNoChar(fields[0], '=');
    if |fields| > 1 then
      NoOccurrenceNoChar(fields[1], '=');
      Cookie(fields[0], Text(fields[1]))
    else
      Cookie(fields[0], Undefined)
  }

  /** A string in which the one-character string `[c]` does not occur does not hold `c`. */
  lemma NoOccurrenceNoChar(s: string, c: char)
    requires !Contains(s, [c])
    ensures c !in s
  {
    forall p | 0 <= p < |s|
      ensures s[p] != c
    {
      assert !Occurs(s, [c], p);
      assert s[p..p + 1] == [s[p]];
    }
  }

  /** The pairs of a batch of lines, in order. */
  function Parse(lines: seq<string>): seq<Cookie>
  {
    seq(|lines|, i requires 0 <= i < |lines| => ParseLine(lines[i]))
  }

  /** The names of a batch of pairs, in order. */
  function Names(cs: seq<Cookie>): (r: seq<string>)
    ensures |r| == |cs|
  {
    if cs == [] then []
    else Names(cs[..|cs| - 1]) + [cs[|cs| - 1].name]
  }

  /** The jar after every pair has been stored, first pair first. */
  function SetAll(j: Jar, cs: seq<Cookie>): (r: Jar)
    requires Valid(j)
    ensures Valid(r)
  {
    if cs == [] then j
    else Set(SetAll(j, cs[..|cs| - 1]), cs[|cs| - 1].name, cs[|cs| - 1].value)
  }

  /** The jar after a response: unchanged when the response has no `Set-Cookie` header. */
  function Receive(j: Jar, setCookie: Option<seq<string>>): (r: Jar)
    requires Valid(j)
    ensures Valid(r)
    ensures setCookie.None? ==> r == j
  {
    match setCookie
    case None => j
    case Some(lines) => SetAll(j, Parse(lines))
  }

  /** The value of the last pair named `name`, or `None` if no pair is. */
  function LastFor(cs: seq<Cookie>, name: string): Option<CookieValue>
  {
    if cs == [] then None
    else if cs[|cs| - 1].name == name then Some(cs[|cs| - 1].value)
    else LastFor(cs[..|cs| - 1], name)
  }

  /** One `name=value` entry of the `Cookie` header. */
  function Entry(name: string, v: CookieValue): string
  {
    name + "=" + ValueText(v)
  }

  /** The entries of the jar, one per key, in first-insertion order. */
  function Entries(j: Jar): (r: seq<string>)
    requires Valid(j)
    ensures |r| == |j.order|
    ensures forall i :: 0 <= i < |r| ==> r[i] == Entry(j.order[i], j.store[j.order[i]])
  {
    seq(|j.order|, i requires 0 <= i < |j.order| => Entry(j.order[i], j.store[j.order[i]]))
  }

  /** The `Cookie` request header: the entries joined by "; ". */
  function Serialize(j: Jar): (r: string)
    requires Valid(j)
    ensures r == "" <==> |j.order| == 0
    ensures |j.order| > 0 ==> Entry(j.order[0], j.store[j.order[0]]) <= r
  {
    Join(Entries(j), "; ")
  }

  /** The distinct elements of `s`, each at the place it first appears. */
  function FirstOccurrences(s: seq<string>): (r: seq<string>)
    ensures Distinct(r)
    ensures forall x :: x in r <==> x in s
  {
    if s == [] then []
    else
      var d := FirstOccurrences(s[..|s| - 1]);
      if s[|s| - 1] in d then d else d + [s[|s| - 1]]
  }

  /**
   * Last write wins: after a batch, a name that some pair carries maps to
   * the value of the last such pair; any other name keeps what it had,
   * present or absent.
   */
  lemma {:induction false} SetAllLastWins(j: Jar, cs: seq<Cookie>, name: string)
    requires Valid(j)
    ensures LastFor(cs, name).Some? ==>
      name in SetAll(j, cs).store && SetAll(j, cs).store[name] == LastFor(cs, name).value
    ensures LastFor(cs, name).None? ==>
      (name in SetAll(j, cs).store <==> name in j.store) &&
      (name in j.store ==> SetAll(j, cs).store[name] == j.store[name])
  {
    if cs != [] {
      SetAllLastWins(j, cs[..|cs| - 1], name);
    }
  }

  /** Storing one more pair after a batch. */
  lemma SetAllSnoc(j: Jar, cs: seq<Cookie>, c: Cookie)
    requires Valid(j)
    ensures SetAll(j, cs + [c]) == Set(SetAll(j, cs), c.name, c.value)
  {
    assert (cs + [c])[..|cs|] == cs;
  }

  /** The pairs of one more line. */
  lemma ParseSnoc(lines: seq<string>, i: nat)
    requires i < |lines|
    ensures Parse(lines[..i + 1]) == Parse(lines[..i]) + [ParseLine(lines[i])]
  {
  }

  /** A sequence without repeats is its own list of first occurrences. */
  lemma {:induction false} FirstOccurrencesOfDistinct(s: seq<string>)
    requires Distinct(s)
    ensures FirstOccurrences(s) == s
  {
    if s != [] {
      FirstOccurrencesOfDistinct(s[..|s| - 1]);
      assert s == s[..|s| - 1] + [s[|s| - 1]];
    }
  }

  /**
   * The order of a jar after a batch: the old keys, then each new name once,
   * at the place of its first pair; a name that is overwritten keeps its place.
   */
  lemma {:induction false} SetAllOrder(j: Jar, cs: seq<Cookie>)
    requires Valid(j)
    ensures SetAll(j, cs).order == FirstOccurrences(j.order + Names(cs))
  {
    if cs == [] {
      assert j.order + Names(cs) == j.order;
      FirstOccurrencesOfDistinct(j.order);
    } else {
      var init := cs[..|cs| - 1];
      var name := cs[|cs| - 1].name;
      SetAllOrder(j, init);
      var before := SetAll(j, init);
      assert name in before.store <==> name in before.order;
      var s := j.order + Names(cs);
      assert s == (j.order + Names(init)) + [name];
      assert s[..|s| - 1] == j.order + Names(init);
    }
  }

  /**
   * The `Cookie` header entries after a batch: the `i`-th entry is for the
   * `i`-th name in first-appearance order over the old keys and the batch,
   * with the value of the last pair carrying that name, or the old value
   * when no pair does.
   */
  lemma EntriesAfterBatch(j: Jar, cs: seq<Cookie>, i: nat)
    requires Valid(j)
    requires i < |FirstOccurrences(j.order + Names(cs))|
    ensures |Entries(SetAll(j, cs))| == |FirstOccurrences(j.order + Names(cs))|
    ensures var n := FirstOccurrences(j.order + Names(cs))[i];
      LastFor(cs, n).Some? ==> Entries(SetAll(j, cs))[i] == Entry(n, LastFor(cs, n).value)
    ensures var n := FirstOccurrences(j.order + Names(cs))[i];
      LastFor(cs, n).None? ==> n in j.store && Entries(SetAll(j, cs))[i] == Entry(n, j.store[n])
  {
    SetAllOrder(j, cs);
    SetAllLastWins(j, cs, FirstOccurrences(j.order + Names(cs))[i]);
  }

  /** Every key of the jar is in its `Cookie` header with its value. */
  lemma KeyIsSent(j: Jar, name: string)
    requires Valid(j) && name in j.store
    ensures Entry(name, j.store[name]) in Entries(j)
  {
    var i :| 0 <= i < |j.order| && j.order[i] == name;
    assert Entries(j)[i] == Entry(name, j.store[name]);
  }

  /**
   * Every cookie a batch sets is sent, with its last value, in the
   * `Cookie` header built from the jar afterwards.
   */
  lemma SetCookieIsSent(j: Jar, cs: seq<Cookie>, name: string)
    requires Valid(j)
    requires LastFor(cs, name).Some?
    ensures Entry(name, LastFor(cs, name).value) in Entries(SetAll(j, cs))
  {
    SetAllLastWins(j, cs, name);
    KeyIsSent(SetAll(j, cs), name);
  }

  /** Storing one batch after another is storing the two batches in order. */
  lemma {:induction false} SetAllConcat(j: Jar, a: seq<Cookie>, b: seq<Cookie>)
    requires Valid(j)
    ensures SetAll(SetAll(j, a), b) == SetAll(j, a + b)
  {
    if b == [] {
      assert a + b == a;
    } else {
      var init, c := b[..|b| - 1], b[|b| - 1];
      assert b == init + [c];
      assert a + b == (a + init) + [c];
      SetAllConcat(j, a, init);
      SetAllSnoc(SetAll(j, a), init, c);
      SetAllSnoc(j, a + init, c);
    }
  }

  /** The pairs of two batches of lines are those of the first, then those of the second. */
  lemma ParseConcat(a: seq<string>, b: seq<string>)
    ensures Parse(a + b) == Parse(a) + Parse(b)
  {
  }

  /** The `Set-Cookie` lines of a sequence of responses, in order; a response without the header adds none. */
  function Lines(headers: seq<Option<seq<string>>>): seq<string>
  {
    if headers == [] then []
    else
      var last := headers[|headers| - 1];
      Lines(headers[..|headers| - 1]) + (if last.Some? then last.value else [])
  }

  /** The jar after a sequence of responses, each received in turn. */
  function ReceiveAll(j: Jar, headers: seq<Option<seq<string>>>): (r: Jar)
    requires Valid(j)
    ensures Valid(r)
  {
    if headers == [] then j
    else Receive(ReceiveAll(j, headers[..|headers| - 1]), headers[|headers| - 1])
  }

  /** Receiving a sequence of responses is storing all their lines as one batch. */
  lemma {:induction false} ReceiveAllLines(j: Jar, headers: seq<Option<seq<string>>>)
    requires Valid(j)
    ensures ReceiveAll(j, headers) == SetAll(j, Parse(Lines(headers)))
  {
    if headers != [] {
      var init, last := headers[..|headers| - 1], headers[|headers| - 1];
      ReceiveAllLines(j, init);
      var before := SetAll(j, Parse(Lines(init)));
      assert ReceiveAll(j, headers) == Receive(before, last);
      if last.Some? {
        assert Lines(headers) == Lines(init) + last.value;
        ParseConcat(Lines(init), last.value);
        SetAllConcat(j, Parse(Lines(init)), Parse(last.value));
      } else {
        assert Lines(headers) == Lines(init) + [];
        assert Lines(init) + [] == Lines(init);
      }
    }
  }

  /**
   * A cookie set by a sequence of responses is sent, with its last value,
   * by the `Cookie` header built after any number of later responses, as
   * long as none of them has a line for the same name.
   */
  lemma SentUntilOverwritten(j: Jar, earlier: seq<Option<seq<string>>>, later: seq<Option<seq<string>>>, name: string)
    requires Valid(j)
    requires LastFor(Parse(Lines(earlier)), name).Some? && LastFor(Parse(Lines(later)), name).None?
    ensures Entry(name, LastFor(Parse(Lines(earlier)), name).value) in
      Entries(ReceiveAll(ReceiveAll(j, earlier), later))
  {
    var a, b := Parse(Lines(earlier)), Parse(Lines(later));
    ReceiveAllLines(j, earlier);
    ReceiveAllLines(ReceiveAll(j, earlier), later);
    SetAllLastWins(j, a, name);
    SetAllLastWins(SetAll(j, a), b, name);
    KeyIsSent(SetAll(SetAll(j, a), b), name);
  }

  /** The attributes after the first "; " of a line never reach the jar. */
  lemma ParseIgnoresAttributes(cookie: string, attributes: string)
    requires !Contains(cookie, "; ")
    ensures ParseLine(cookie + "; " + attributes) == ParseLine(cookie)
  {
    var line := cookie + "; " + attributes;
    forall p: nat | p < |cookie|
      ensures !Occurs(line, "; ", p)
    {
      if p + 2 <= |cookie| {
        assert line[p..p + 2] == cookie[p..p + 2];
        assert !Occurs(cookie, "; ", p);
      } else {
        assert line[p + 1] == ';';
      }
    }
    SplitAt(cookie, "; ", attributes);
    SplitWhole(cookie, "; ");
  }

  /**
   * For a cookie text without "; ", the name is the text before the first
   * '=' and the value the text between the first and the second '='.
   */
  lemma ParseNameValue(name: string, value: string, rest: string)
    requires '=' !in name && '=' !in value
    requires rest == [] || rest[0] == '='
    requires !Contains(name + "=" + value + rest, "; ")
    ensures ParseLine(name + "=" + value + rest) == Cookie(name, Text(value))
  {
    var line := name + "=" + value + rest;
    SplitWhole(line, "; ");
    assert line == name + "=" + (value + rest);
    SplitAfterFirst(name, value + rest);
    FirstField(value, rest);
  }

  /** A piece without '=' before an '=' is the first field. */
  lemma SplitAfterFirst(a: string, b: string)
    requires '=' !in a
    ensures Split(a + "=" + b, "=") == [a] + Split(b, "=")
  {
    forall p: nat | p < |a|
      ensures !Occurs(a + "=" + b, "=", p)
    {
      assert (a + "=" + b)[p..p + 1][0] == a[p];
    }
    SplitAt(a, "=", b);
  }

  /** The first field of `value + rest` is `value` when `rest` is empty or starts a new field. */
  lemma FirstField(value: string, rest: string)
    requires '=' !in value
    requires rest == [] || rest[0] == '='
    ensures Split(value + rest, "=")[0] == value
  {
    if rest == [] {
      assert value + rest == value;
      NoFirstCharNoOccurrence(value, "=");
      SplitWhole(value, "=");
    } else {
      assert value + rest == value + "=" + rest[1..];
      SplitAfterFirst(value, rest[1..]);
    }
  }

  /** A cookie text without '=' is all name, and its value is `undefined`. */
  lemma ParseWithoutEquals(cookie: string)
    requires '=' !in cookie && !Contains(cookie, "; ")
    ensures ParseLine(cookie) == Cookie(cookie, Undefined)
  {
    SplitWhole(cookie, "; ");
    NoFirstCharNoOccurrence(cookie, "=");
    SplitWhole(cookie, "=");
  }

  /** A name that the `Cookie` header can carry and a parse can give back. */
  predicate PlainName(name: string)
  {
    ';' !in name && '=' !in name
  }

  /** A value that a parse can give back from an entry. */
  predicate PlainValue(s: string)
  {
    '=' !in s && !Contains(s, "; ")
  }

  /** Parsing one `Cookie` header entry as a `Set-Cookie` line recovers its pair. */
  lemma ParseEntry(name: string, value: string)
    requires PlainName(name) && PlainValue(value)
    ensures ParseLine(Entry(name, Text(value))) == Cookie(name, Text(value))
  {
    var e := name + "=" + value;
    assert Entry(name, Text(value)) == e;
    forall p: nat
      ensures !Occurs(e, "; ", p)
    {
      if p + 2 <= |e| {
        if p < |name| {
          assert e[p..p + 2][0] == name[p];
        } else if p == |name| {
          assert e[p..p + 2][0] == '=';
        } else {
          var q := p - |name| - 1;
          assert e[p..p + 2] == value[q..q + 2];
          assert !Occurs(value, "; ", q);
        }
      }
    }
    assert e == name + "=" + value + [];
    ParseNameValue(name, value, []);
  }

  /** Every key is a plain name and every value a plain string. */
  ghost predicate Plain(j: Jar)
    requires Valid(j)
  {
    forall n :: n in j.store ==> PlainName(n) && j.store[n].Text? && PlainValue(j.store[n].s)
  }

  /** The pairs of the jar, one per key, in first-insertion order. */
  function Pairs(j: Jar): (r: seq<Cookie>)
    requires Valid(j)
    ensures |r| == |j.order|
    ensures forall i :: 0 <= i < |r| ==> r[i] == Cookie(j.order[i], j.store[j.order[i]])
  {
    seq(|j.order|, i requires 0 <= i < |j.order| => Cookie(j.order[i], j.store[j.order[i]]))
  }

  /** The entries of a plain jar parse back to its pairs. */
  lemma ParseEntries(j: Jar)
    requires Valid(j) && Plain(j)
    ensures Parse(Entries(j)) == Pairs(j)
  {
    forall i | 0 <= i < |j.order|
      ensures Parse(Entries(j))[i] == Pairs(j)[i]
    {
      var name := j.order[i];
      assert name in j.store;
      ParseEntry(name, j.store[name].s);
    }
  }

  /** The jar holding the first `k` keys of `j`. */
  function Prefix(j: Jar, k: nat): (r: Jar)
    requires Valid(j) && k <= |j.order|
    ensures Valid(r)
  {
    var names := j.order[..k];
    Jar(names, map n | n in j.store && n in names :: j.store[n])
  }

  /**
   * Replaying the `Cookie` header entries of a jar of plain cookies as
   * `Set-Cookie` lines into a fresh jar rebuilds the same jar, order included.
   */
  lemma ReplayEntries(j: Jar)
    requires Valid(j) && Plain(j)
    ensures SetAll(Empty(), Parse(Entries(j))) == j
  {
    ParseEntries(j);
    StorePairs(j);
  }

  /** Storing the pairs of a jar, in order, into a fresh jar rebuilds it. */
  lemma StorePairs(j: Jar)
    requires Valid(j)
    ensures SetAll(Empty(), Pairs(j)) == j
  {
    var ps := Pairs(j);
    StorePairsPrefix(j, |j.order|);
    assert ps[..|ps|] == ps;
    PrefixWhole(j);
  }

  /** The jar of all its keys is the jar itself. */
  lemma PrefixWhole(j: Jar)
    requires Valid(j)
    ensures Prefix(j, |j.order|) == j
  {
    assert j.order[..|j.order|] == j.order;
    assert Prefix(j, |j.order|).store == j.store;
  }

  /** Storing the first `k` pairs of a jar into a fresh jar gives the jar of its first `k` keys. */
  lemma {:induction false} StorePairsPrefix(j: Jar, k: nat)
    requires Valid(j) && k <= |j.order|
    ensures SetAll(Empty(), Pairs(j)[..k]) == Prefix(j, k)
  {
    if k > 0 {
      StorePairsPrefix(j, k - 1);
      var ps := Pairs(j)[..k];
      assert ps[..k - 1] == Pairs(j)[..k - 1];
      assert ps[k - 1] == Cookie(j.order[k - 1], j.store[j.order[k - 1]]);
      PrefixGrows(j, k);
    }
  }

  /** The jar of the first `k` keys is that of the first `k - 1` keys with the `k`-th key added. */
  lemma PrefixGrows(j: Jar, k: nat)
    requires Valid(j) && 0 < k <= |j.order|
    ensures j.order[k - 1] !in Prefix(j, k - 1).store
    ensures Prefix(j, k) == Set(Prefix(j, k - 1), j.order[k - 1], j.store[j.order[k - 1]])
  {
    var name := j.order[k - 1];
    var before, after := Prefix(j, k - 1), Prefix(j, k);
    assert j.order[..k] == j.order[..k - 1] + [name];
    assert name !in j.order[..k - 1];
    assert after.store == before.store[name := j.store[name]];
  }

  /**
   * The `Cookie` header of a non-empty jar whose values hold no ';', cut at
   * each "; " and each piece parsed as a `Set-Cookie` line, rebuilds the jar.
   */
  lemma HeaderRoundTrip(j: Jar)
    requires Valid(j) && Plain(j) && |j.order| >= 1
    requires forall n :: n in j.store ==> ';' !in ValueText(j.store[n])
    ensures SetAll(Empty(), Parse(Split(Serialize(j), "; "))) == j
  {
    var es := Entries(j);
    forall i | 0 <= i < |es|
      ensures ';' !in es[i]
    {
      assert j.order[i] in j.store;
    }
    SplitJoin(es, "; ");
    ReplayEntries(j);
  }
}
