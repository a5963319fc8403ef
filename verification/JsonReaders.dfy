/** The recursive-descent reader: a cursor over the input, a budget of values
    spent as they are met, and the first failure final. */
module JsonReaders {
  import opened Ids
  import opened Bytes
  import opened Utf
  import opened Json
  import opened JsonLaws

  /** The reader found what the meaning of its input says, or refused. */
  ghost predicate Finds<T>(meaning: Parsed<T>, r: Option<T>, rest: seq<Byte>) {
    match meaning
    case Fail => r.None?
    case Got(value, left) => r == Some(value) && rest == left
  }

  /** A meaning with text already read put before it. */
  ghost function After(text: seq<Byte>, meaning: Parsed<seq<Byte>>): Parsed<seq<Byte>> {
    match meaning
    case Fail => Fail
    case Got(more, rest) => Got(text + more, rest)
  }

  /** One unfolding of the rest of an array. */
  lemma {:induction false} ElementsUnfold(s: seq<Byte>, depth: nat, budget: nat, done: seq<Value>)
    ensures |done| >= MAX_CONTAINER ==> ParseElements(s, depth, budget, done).Fail?
    ensures (var r := ParseValue(SkipSpace(s), depth + 1, budget);
             |done| < MAX_CONTAINER ==>
               ParseElements(s, depth, budget, done)
               == if r.Fail? then Fail else AfterElement(SkipSpace(r.rest), depth, r.value, done))
  {
    hide ParseValue, ParseMembers;
  }

  ghost function AfterElement(t: seq<Byte>, depth: nat, next: Spent, done: seq<Value>): Parsed<Spent> {
    if t != [] && t[0] == COMMA then
      var u := SkipSpace(t[1..]);
      if u != [] && u[0] == CLOSE_ARRAY then Fail else ParseElements(u, depth, next.budget, done + [next.value])
    else if t != [] && t[0] == CLOSE_ARRAY then Got(Spent(Array(done + [next.value]), next.budget), t[1..])
    else Fail
  }

  /** One unfolding of the rest of an object. */
  lemma {:induction false} MembersUnfold(s: seq<Byte>, depth: nat, budget: nat, done: seq<Member>)
    ensures |done| >= MAX_CONTAINER ==> ParseMembers(s, depth, budget, done).Fail?
    ensures (var r := ParseEntry(SkipSpace(s), depth + 1, budget);
             |done| < MAX_CONTAINER ==>
               ParseMembers(s, depth, budget, done)
               == if r.Fail? || HasKey(done, r.value.key) then Fail
                  else AfterMember(SkipSpace(r.rest), depth, r.value, done))
  {
    hide ParseValue, ParseElements, ParseKey, HasKey;
  }

  datatype Ending = Another | Closed | Broken

  datatype Entry = Entry(key: seq<Byte>, spent: Spent)

  ghost function ParseEntry(s: seq<Byte>, depth: nat, budget: nat): Parsed<Entry> {
    var (key, rest) :- ParseKey(s);
    var (spent, rest) :- ParseValue(rest, depth, budget);
    Got(Entry(key, spent), rest)
  }

  ghost function AfterMember(t: seq<Byte>, depth: nat, next: Entry, done: seq<Member>): Parsed<Spent> {
    var now := done + [Member(next.key, next.spent.value)];
    if t != [] && t[0] == COMMA then ParseMembers(SkipSpace(t[1..]), depth, next.spent.budget, now)
    else if t != [] && t[0] == CLOSE_OBJECT then Got(Spent(Object(now), next.spent.budget), t[1..])
    else Fail
  }

  class JsonReader {
    const input: seq<Byte>
    var position: nat

    ghost predicate Valid()
      reads this
    {
      position <= |input|
    }

    ghost function Rest(): seq<Byte>
      requires Valid()
      reads this
    {
      input[position..]
    }

    constructor (input: seq<Byte>)
      ensures Valid() && this.input == input && Rest() == input
    {
      this.input := input;
      this.position := 0;
    }

    method SkipWhitespace()
      requires Valid()
      modifies this
      ensures Valid() && Rest() == SkipSpace(old(Rest()))
      ensures position >= old(position)
    {
      while position < |input| && input[position] in {0x20, 0x09, 0x0A, 0x0D}
        invariant Valid() && position >= old(position)
        invariant SkipSpace(Rest()) == SkipSpace(old(Rest()))
      {
        assert Rest()[1..] == input[position + 1..];
        position := position + 1;
      }
    }

    /** Whether the next byte is this one. */
    method Sees(b: Byte) returns (yes: bool)
      requires Valid()
      ensures yes <==> Rest() != [] && Rest()[0] == b
    {
      yes := position < |input| && input[position] == b;
    }

    /** Copies literal runs in one go, each checked to be UTF-8, and escapes one at
        a time between them. */
    method ReadText(limit: nat) returns (text: Option<seq<Byte>>)
      requires Valid() && limit < U64
      requires Rest() != [] && Rest()[0] == QUOTE
      modifies this
      ensures Valid() && (text.Some? ==> position > old(position))
      ensures Finds(Unescape(old(Rest())[1..], limit, 0), text, Rest())
    {
      hide Unescape, Escape, Room, RunLength, IsUtf8;
      ghost var start := Rest()[1..];
      var pos := position + 1;
      var literal := pos;
      var out: seq<Byte> := [];
      ghost var meaning := Unescape(start, limit, 0);
      assert input[literal..] == start;
      assert After([], meaning) == meaning by {
        assert meaning.Got? ==> [] + meaning.value == meaning.value;
      }
      while pos < |input|
        invariant position < literal <= pos <= |input| && position == old(position)
        invariant AllLiteral(input[literal..pos])
        invariant meaning == After(out, Unescape(input[literal..], limit, |out|))
      {
        var b := input[pos];
        ghost var run, tail := input[literal..pos], input[pos..];
        assert input[literal..] == run + tail;
        if !Stops(b) {
          assert input[literal..pos + 1] == run + [b];
          pos := pos + 1;
          continue;
        }
        if b < 0x20 {
          UnescapeStuck(run, tail, limit, |out|);
          return None;
        }
        var flushed := Flush(literal, pos, out, limit);
        if flushed.None? {
          UnescapeStuck(run, tail, limit, |out|);
          return None;
        }
        if b == QUOTE {
          assert tail == [QUOTE] + input[pos + 1..];
          UnescapeEnd(run, input[pos + 1..], limit, |out|);
          position := pos + 1;
          return flushed;
        }
        UnescapeStep(run, tail, limit, |out|);
        assert tail[1..] == input[pos + 1..];
        var piece := Escape(input[pos + 1..], limit, |flushed.value|);
        if piece.Fail? {
          return None;
        }
        EscapeAdvances(input[pos + 1..], limit, |flushed.value|);
        ghost var more := Unescape(piece.rest, limit, |flushed.value| + |piece.value|);
        if more.Got? {
          Regroup(out, run, piece.value, more.value);
        }
        out := flushed.value + piece.value;
        pos := |input| - |piece.rest|;
        literal := pos;
      }
      assert input[literal..] == input[literal..pos] + [];
      UnescapeStuck(input[literal..pos], [], limit, |out|);
      return None;
    }

    /** Appends the literal run before `end` if it is UTF-8 and there is room. */
    method Flush(from: nat, end: nat, out: seq<Byte>, limit: nat) returns (grown: Option<seq<Byte>>)
      requires from <= end <= |input|
      ensures grown.Some? <==> IsUtf8(input[from..end]) && Room(limit, |out|, end - from)
      ensures grown.Some? ==> grown.value == out + input[from..end]
    {
      var run := input[from..end];
      var error := ValidateUtf8(run);
      if error.Some? || !Room(limit, |out|, |run|) {
        return None;
      }
      return Some(out + run);
    }

    method ReadValue(depth: nat, budget: nat) returns (r: Option<Spent>)
      requires Valid()
      modifies this
      ensures Valid() && (r.Some? ==> position > old(position))
      ensures Finds(ParseValue(old(Rest()), depth, budget), r, Rest())
      decreases |input| - position, 1
    {
      hide ParseElements, ParseMembers, Unescape, NumberLength;
      if budget == 0 {
        return None;
      }
      SkipWhitespace();
      if position >= |input| {
        return None;
      }
      ghost var t := Rest();
      if input[position] == OPEN_OBJECT {
        NothingSkipped(t);
        r := ReadObject(depth, budget - 1);
      } else if input[position] == OPEN_ARRAY {
        NothingSkipped(t);
        r := ReadArray(depth, budget - 1);
      } else if input[position] == QUOTE {
        var text := ReadText(MAX_TEXT);
        r := if text.Some? then Some(Spent(String(text.value), budget - 1)) else None;
      } else {
        var scalar := ParseScalar(input[position..]);
        if scalar.Fail? {
          return None;
        }
        ScalarAdvances(t);
        position := |input| - |scalar.rest|;
        r := Some(Spent(scalar.value, budget - 1));
      }
    }

    /** What stands after an element: a comma and another, the bracket, or neither. */
    method EndElement(depth: nat, next: Spent, ghost done: seq<Value>) returns (end: Ending)
      requires Valid()
      modifies this
      ensures Valid() && position >= old(position)
      ensures end.Broken? ==> AfterElement(SkipSpace(old(Rest())), depth, next, done).Fail?
      ensures (end.Closed? ==>
                 AfterElement(SkipSpace(old(Rest())), depth, next, done)
                 == Got(Spent(Array(done + [next.value]), next.budget), Rest()))
      ensures (end.Another? ==>
                 AfterElement(SkipSpace(old(Rest())), depth, next, done)
                 == ParseElements(Rest(), depth, next.budget, done + [next.value]))
    {
      hide ParseElements, SkipSpace;
      SkipWhitespace();
      if position < |input| && input[position] == COMMA {
        position := position + 1;
        SkipWhitespace();
        if position < |input| && input[position] == CLOSE_ARRAY {
          return Broken;
        }
        return Another;
      }
      if position < |input| && input[position] == CLOSE_ARRAY {
        position := position + 1;
        return Closed;
      }
      return Broken;
    }

    method EndMember(depth: nat, next: Entry, ghost done: seq<Member>) returns (end: Ending)
      requires Valid()
      modifies this
      ensures Valid() && position >= old(position)
      ensures end.Broken? ==> AfterMember(SkipSpace(old(Rest())), depth, next, done).Fail?
      ensures (end.Closed? ==>
                 AfterMember(SkipSpace(old(Rest())), depth, next, done)
                 == Got(Spent(Object(done + [Member(next.key, next.spent.value)]), next.spent.budget), Rest()))
      ensures (end.Another? ==>
                 AfterMember(SkipSpace(old(Rest())), depth, next, done)
                 == ParseMembers(Rest(), depth, next.spent.budget, done + [Member(next.key, next.spent.value)]))
    {
      hide ParseMembers, SkipSpace;
      SkipWhitespace();
      if position < |input| && input[position] == COMMA {
        position := position + 1;
        SkipWhitespace();
        return Another;
      }
      if position < |input| && input[position] == CLOSE_OBJECT {
        position := position + 1;
        return Closed;
      }
      return Broken;
    }

    /** The budget passed in no longer counts the array itself. */
    method ReadArray(depth: nat, budget: nat) returns (r: Option<Spent>)
      requires Valid() && Rest() != [] && Rest()[0] == OPEN_ARRAY
      modifies this
      ensures Valid() && (r.Some? ==> position > old(position))
      ensures Finds(ParseValue(old(Rest()), depth, budget + 1), r, Rest())
      decreases |input| - position, 0
    {
      hide ParseValue, ParseElements, ParseMembers, SkipSpace, AfterElement;
      ghost var start := Rest()[1..];
      assert Rest() == [OPEN_ARRAY] + start;
      ParseArray(start, depth, budget + 1);
      if depth >= MAX_DEPTH {
        return None;
      }
      position := position + 1;
      var empty := Sees(CLOSE_ARRAY);
      if empty {
        position := position + 1;
        return Some(Spent(Array([]), budget));
      }
      var done: seq<Value> := [];
      var left := budget;
      while true
        invariant Valid() && position > old(position)
        invariant ParseElements(start, depth, budget, []) == ParseElements(Rest(), depth, left, done)
        decreases |input| - position
      {
        ElementsUnfold(Rest(), depth, left, done);
        SkipWhitespace();
        if |done| >= MAX_CONTAINER {
          return None;
        }
        var next := ReadValue(depth + 1, left);
        if next.None? {
          return None;
        }
        var end := EndElement(depth, next.value, done);
        done := done + [next.value.value];
        left := next.value.budget;
        if end.Broken? {
          return None;
        }
        if end.Closed? {
          return Some(Spent(Array(done), left));
        }
      }
    }

    method ReadKey() returns (key: Option<seq<Byte>>)
      requires Valid()
      modifies this
      ensures Valid() && (key.Some? ==> position > old(position))
      ensures Finds(ParseKey(old(Rest())), key, Rest())
    {
      hide Unescape;
      if position >= |input| || input[position] != QUOTE {
        return None;
      }
      key := ReadText(MAX_KEY);
      if key.None? || |key.value| > MAX_KEY {
        return None;
      }
      SkipWhitespace();
      if position >= |input| || input[position] != COLON {
        return None;
      }
      position := position + 1;
      SkipWhitespace();
    }

    /** A key, its colon and its value. */
    method ReadEntry(depth: nat, budget: nat) returns (entry: Option<Entry>)
      requires Valid()
      modifies this
      ensures Valid() && (entry.Some? ==> position > old(position))
      ensures Finds(ParseEntry(old(Rest()), depth, budget), entry, Rest())
      decreases |input| - position, 2
    {
      hide ParseValue, ParseKey;
      var key := ReadKey();
      if key.None? {
        return None;
      }
      var next := ReadValue(depth, budget);
      if next.None? {
        return None;
      }
      return Some(Entry(key.value, next.value));
    }

    method ReadObject(depth: nat, budget: nat) returns (r: Option<Spent>)
      requires Valid() && Rest() != [] && Rest()[0] == OPEN_OBJECT
      modifies this
      ensures Valid() && (r.Some? ==> position > old(position))
      ensures Finds(ParseValue(old(Rest()), depth, budget + 1), r, Rest())
      decreases |input| - position, 0
    {
      hide ParseValue, ParseElements, ParseMembers, ParseEntry, SkipSpace, HasKey, AfterMember;
      ghost var start := Rest()[1..];
      assert Rest() == [OPEN_OBJECT] + start;
      ParseObject(start, depth, budget + 1);
      if depth >= MAX_DEPTH {
        return None;
      }
      position := position + 1;
      var empty := Sees(CLOSE_OBJECT);
      if empty {
        position := position + 1;
        return Some(Spent(Object([]), budget));
      }
      var done: seq<Member> := [];
      var left := budget;
      while true
        invariant Valid() && position > old(position)
        invariant ParseMembers(start, depth, budget, []) == ParseMembers(Rest(), depth, left, done)
        decreases |input| - position
      {
        MembersUnfold(Rest(), depth, left, done);
        SkipWhitespace();
        if |done| >= MAX_CONTAINER {
          return None;
        }
        var entry := ReadEntry(depth + 1, left);
        if entry.None? || HasKey(done, entry.value.key) {
          return None;
        }
        var end := EndMember(depth, entry.value, done);
        done := done + [Member(entry.value.key, entry.value.spent.value)];
        left := entry.value.spent.budget;
        if end.Broken? {
          return None;
        }
        if end.Closed? {
          return Some(Spent(Object(done), left));
        }
      }
    }
  }

  lemma {:induction false} EscapeAdvances(s: seq<Byte>, limit: nat, used: nat)
    requires Escape(s, limit, used).Got?
    ensures |Escape(s, limit, used).rest| < |s|
    ensures Escape(s, limit, used).rest == s[|s| - |Escape(s, limit, used).rest|..]
  {
  }

  lemma {:induction false} ScalarAdvances(s: seq<Byte>)
    requires ParseScalar(s).Got?
    ensures |ParseScalar(s).rest| < |s| && ParseScalar(s).rest == s[|s| - |ParseScalar(s).rest|..]
  {
  }

  lemma Regroup<T>(a: seq<T>, b: seq<T>, c: seq<T>, d: seq<T>)
    ensures a + (b + c + d) == (a + b + c) + d
  {
  }

  /** The whole document, consumed completely. */
  method ParseSyntax(input: seq<Byte>) returns (r: Option<Value>)
    ensures r == Document(input)
  {
    hide ParseValue;
    if |input| > MAX_INPUT || input == [] {
      return None;
    }
    var reader := new JsonReader(input);
    var root := reader.ReadValue(0, MAX_ELEMENTS);
    if root.None? {
      return None;
    }
    reader.SkipWhitespace();
    if reader.position != |input| {
      return None;
    }
    return Some(root.value.value);
  }
}
