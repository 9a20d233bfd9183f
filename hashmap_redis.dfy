/**
 * A toy redis server (src/hashmap_redis.cc): a command string is split into an operation and
 * its arguments at spaces, and runs against two stores, one mapping keys to values and one
 * mapping keys to field/value maps.
 */
module Redis {
  import opened Wrappers
  import opened WordUnderCursor

  /**
   * What redis answers. OutOfRange stands for a command that ends before an argument the
   * operation needs: the C++ code then reads past the end of the string or throws from substr.
   */
  datatype Reply = Text(text: string) | OutOfRange

  /** Both stores. */
  datatype Store = Store(values: map<string, string>, hashes: map<string, map<string, string>>)

  /** A command after parsing. */
  datatype Command =
    | Get(key: string)
    | Set(key: string, value: string)
    | Del(key: string)
    | HGet(key: string, field: string)
    | HSet(key: string, field: string, value: string)
    | HGetAll(key: string)
    | Unknown
    | Truncated

  datatype Outcome = Outcome(reply: Reply, store: Store)

  /** A word and the index just after it. */
  datatype Token = Token(text: string, end: nat)

  /** std::string yields a terminating '\0' at index size(). */
  function CharAt(str: string, i: nat): char
    requires i <= |str|
  {
    if i < |str| then str[i] else '\0'
  }

  /** next_word(str, ++i): the word after the separator at i, or None when i + 1 is past the end. */
  function WordAfter(str: string, i: nat): (w: Option<Token>)
    ensures w.Some? <==> i + 1 <= |str|
    ensures w.Some? ==> w.value.end == WordEnd(str, i + 1) && w.value.text == str[i + 1..w.value.end]
  {
    if i + 1 <= |str| then Some(Token(str[i + 1..WordEnd(str, i + 1)], WordEnd(str, i + 1))) else None
  }

  /** cmd.substr(i + 1, size - 1 - i): everything after the separator at i; substr throws when i + 1 > size. */
  function RestAfter(str: string, i: nat): (r: Option<string>)
    ensures r.Some? <==> i + 1 <= |str|
    ensures r.Some? ==> str == str[..i + 1] + r.value
  {
    if i + 1 <= |str| then Some(str[i + 1..]) else None
  }

  /** How redis reads a command string. */
  function Parse(cmd: string): Command
  {
    var opEnd := WordEnd(cmd, 0);
    ParseArguments(cmd, cmd[..opEnd], opEnd)
  }

  /** The arguments of operation op, which ends at opEnd. */
  function ParseArguments(cmd: string, op: string, opEnd: nat): Command
    requires opEnd <= |cmd|
  {
    if op == "get" || op == "del" || op == "hgetall" then
      match WordAfter(cmd, opEnd)
      case None => Truncated
      case Some(key) => if op == "get" then Get(key.text) else if op == "del" then Del(key.text) else HGetAll(key.text)
    else if op == "set" then
      match WordAfter(cmd, opEnd)
      case None => Truncated
      case Some(key) =>
        match RestAfter(cmd, key.end)
        case None => Truncated
        case Some(value) => Set(key.text, value)
    else if op == "hget" || op == "hset" then
      match WordAfter(cmd, opEnd)
      case None => Truncated
      case Some(key) =>
        match WordAfter(cmd, key.end)
        case None => Truncated
        case Some(field) =>
          if op == "hget" then HGet(key.text, field.text)
          else
            match RestAfter(cmd, field.end)
            case None => Truncated
            case Some(value) => HSet(key.text, field.text, value)
    else Unknown
  }

  /** One `"field": "value", ` entry of hgetall's JSON. */
  function Entry(field: string, value: string): string
  {
    "\"" + field + "\": \"" + value + "\", "
  }

  function Entries(listing: seq<(string, string)>): string
  {
    if listing == [] then "" else Entries(listing[..|listing| - 1]) + Entry(listing[|listing| - 1].0, listing[|listing| - 1].1)
  }

  /** hgetall's JSON for the field/value pairs in the order the map hands them out. */
  function Json(listing: seq<(string, string)>): string
  {
    "{ " + Entries(listing) + "}"
  }

  /** listing hands out every field/value pair of fields exactly once. */
  predicate Lists(listing: seq<(string, string)>, fields: map<string, string>)
  {
    (forall i | 0 <= i < |listing| :: listing[i].0 in fields && fields[listing[i].0] == listing[i].1)
    && (forall i, j | 0 <= i < j < |listing| :: listing[i].0 != listing[j].0)
    && (forall f | f in fields :: exists i :: 0 <= i < |listing| && listing[i].0 == f)
  }

  /**
   * What a command answers and does to the stores. The order in which hgetall lists the fields
   * of an unordered_map is not fixed, so it is a parameter.
   */
  function Apply(s: Store, c: Command, listing: seq<(string, string)>): Outcome
  {
    match c
    case Get(key) => Outcome(Text(if key in s.values then s.values[key] else ""), s)
    case Set(key, value) => Outcome(Text("OK"), s.(values := s.values[key := value]))
    case Del(key) =>
      if key in s.values then Outcome(Text(s.values[key]), s.(values := s.values - {key}))
      else Outcome(Text(""), s)
    case HGet(key, field) =>
      Outcome(Text(if key in s.hashes && field in s.hashes[key] then s.hashes[key][field] else ""), s)
    case HSet(key, field, value) =>
      var fields := if key in s.hashes then s.hashes[key] else map[];
      Outcome(Text("OK"), s.(hashes := s.hashes[key := fields[field := value]]))
    case HGetAll(key) => Outcome(Text(if key in s.hashes then Json(listing) else ""), s)
    case Unknown => Outcome(Text(""), s)
    case Truncated => Outcome(OutOfRange, s)
  }

  /** The fields hgetall lists, if the command is an hgetall of a present key. */
  function Listed(s: Store, c: Command): map<string, string>
  {
    if c.HGetAll? && c.key in s.hashes then s.hashes[c.key] else map[]
  }

  /** next_word: walk from curIndex to the next space or the end. */
  method NextWord(str: string, curIndex: nat) returns (word: string, newIndex: nat)
    requires curIndex <= |str|
    ensures newIndex == WordEnd(str, curIndex) && word == str[curIndex..newIndex]
  {
    var startIndex := curIndex;
    newIndex := curIndex;
    while CharAt(str, newIndex) != ' ' && newIndex < |str|
      invariant startIndex <= newIndex <= |str|
      invariant WordEnd(str, newIndex) == WordEnd(str, startIndex)
      decreases |str| - newIndex
    {
      newIndex := newIndex + 1;
    }
    word := str[startIndex..newIndex];
  }

  /** The JSON loop of hgetall, taking the fields in whatever order the map yields them. */
  method ListFields(fields: map<string, string>) returns (json: string, ghost listing: seq<(string, string)>)
    ensures json == Json(listing) && Lists(listing, fields)
  {
    json := "{ ";
    listing := [];
    var remaining := fields.Keys;
    while remaining != {}
      invariant json == "{ " + Entries(listing)
      invariant remaining <= fields.Keys
      invariant forall i | 0 <= i < |listing| :: listing[i].0 in fields && fields[listing[i].0] == listing[i].1
      invariant forall i | 0 <= i < |listing| :: listing[i].0 !in remaining
      invariant forall i, j | 0 <= i < j < |listing| :: listing[i].0 != listing[j].0
      invariant forall f | f in fields && f !in remaining :: exists i :: 0 <= i < |listing| && listing[i].0 == f
      decreases |remaining|
    {
      var f :| f in remaining;
      json := json + "\"";
      json := json + f;
      json := json + "\": \"";
      json := json + fields[f];
      json := json + "\", ";
      assert (listing + [(f, fields[f])])[..|listing|] == listing;
      listing := listing + [(f, fields[f])];
      remaining := remaining - {f};
    }
    json := json + "}";
  }

  class Server {
    /** key_value_store */
    var keyValueStore: map<string, string>
    /** key_field_value_store */
    var keyFieldValueStore: map<string, map<string, string>>

    function State(): Store
      reads this
    {
      Store(keyValueStore, keyFieldValueStore)
    }

    constructor ()
      ensures State() == Store(map[], map[])
    {
      keyValueStore := map[];
      keyFieldValueStore := map[];
    }

    /** redis: read the operation, then run its branch. */
    method Run(cmd: string) returns (reply: Reply, ghost listing: seq<(string, string)>)
      modifies this
      ensures Outcome(reply, State()) == Apply(old(State()), Parse(cmd), listing)
      ensures Lists(listing, Listed(old(State()), Parse(cmd)))
    {
      listing := [];
      var operation, curIndex := NextWord(cmd, 0);
      if operation == "get" || operation == "del" || operation == "hgetall" {
        reply, listing := KeyCommand(cmd, operation, curIndex);
      } else if operation == "set" {
        reply := SetCommand(cmd, curIndex);
      } else if operation == "hget" || operation == "hset" {
        reply := FieldCommand(cmd, operation, curIndex);
      } else {
        reply := Text("");
      }
    }

    /** The get, del and hgetall branches, whose one argument is a key. */
    method KeyCommand(cmd: string, operation: string, curIndex: nat) returns (reply: Reply, ghost listing: seq<(string, string)>)
      requires curIndex <= |cmd| && (operation == "get" || operation == "del" || operation == "hgetall")
      modifies this
      ensures Outcome(reply, State()) == Apply(old(State()), ParseArguments(cmd, operation, curIndex), listing)
      ensures Lists(listing, Listed(old(State()), ParseArguments(cmd, operation, curIndex)))
    {
      listing := [];
      if curIndex + 1 > |cmd| {
        return OutOfRange, listing;
      }
      var key, keyEnd := NextWord(cmd, curIndex + 1);
      if operation == "get" {
        if key !in keyValueStore {
          return Text(""), listing;
        }
        return Text(keyValueStore[key]), listing;
      } else if operation == "del" {
        if key !in keyValueStore {
          return Text(""), listing;
        }
        var value := keyValueStore[key];
        keyValueStore := keyValueStore - {key};
        return Text(value), listing;
      }
      if key !in keyFieldValueStore {
        return Text(""), listing;
      }
      var json;
      json, listing := ListFields(keyFieldValueStore[key]);
      return Text(json), listing;
    }

    /** The set branch: a key, then the rest of the command as the value. */
    method SetCommand(cmd: string, curIndex: nat) returns (reply: Reply)
      requires curIndex <= |cmd|
      modifies this
      ensures Outcome(reply, State()) == Apply(old(State()), ParseArguments(cmd, "set", curIndex), [])
    {
      if curIndex + 1 > |cmd| {
        return OutOfRange;
      }
      var key, keyEnd := NextWord(cmd, curIndex + 1);
      if keyEnd + 1 > |cmd| {
        return OutOfRange;
      }
      var value := cmd[keyEnd + 1..];
      keyValueStore := keyValueStore[key := value];
      return Text("OK");
    }

    /** The hget and hset branches: a key and a field, then for hset the rest of the command as the value. */
    method FieldCommand(cmd: string, operation: string, curIndex: nat) returns (reply: Reply)
      requires curIndex <= |cmd| && (operation == "hget" || operation == "hset")
      modifies this
      ensures Outcome(reply, State()) == Apply(old(State()), ParseArguments(cmd, operation, curIndex), [])
    {
      if curIndex + 1 > |cmd| {
        return OutOfRange;
      }
      var key, keyEnd := NextWord(cmd, curIndex + 1);
      if keyEnd + 1 > |cmd| {
        return OutOfRange;
      }
      var field, fieldEnd := NextWord(cmd, keyEnd + 1);
      if operation == "hget" {
        if key !in keyFieldValueStore {
          return Text("");
        }
        if field !in keyFieldValueStore[key] {
          return Text("");
        }
        return Text(keyFieldValueStore[key][field]);
      }
      if fieldEnd + 1 > |cmd| {
        return OutOfRange;
      }
      var value := cmd[fieldEnd + 1..];
      if key !in keyFieldValueStore {
        keyFieldValueStore := keyFieldValueStore[key := map[field := value]];
        return Text("OK");
      }
      keyFieldValueStore := keyFieldValueStore[key := keyFieldValueStore[key][field := value]];
      return Text("OK");
    }
  }

  /** The walk from i stops at e when everything from i up to e is a word character and e is a space or the end. */
  lemma {:induction false} WordEndIs(str: string, i: nat, e: nat)
    requires i <= e <= |str|
    requires forall k | i <= k < e :: str[k] != ' '
    requires e == |str| || str[e] == ' '
    ensures WordEnd(str, i) == e
    decreases e - i
  {
    if i < e {
      WordEndIs(str, i + 1, e);
    }
  }

  /** next_word from i reads word when it is spelled at i, holds no space and is followed by a space or the end. */
  lemma ReadsWordAt(str: string, i: nat, word: string)
    requires i + |word| <= |str| && str[i..i + |word|] == word && ' ' !in word
    requires i + |word| == |str| || str[i + |word|] == ' '
    ensures WordEnd(str, i) == i + |word|
  {
    forall k | i <= k < i + |word|
      ensures str[k] != ' '
    {
      assert str[k] == word[k - i];
    }
    WordEndIs(str, i, i + |word|);
  }

  /** A command that starts with op, followed by a space or the end, runs op's branch. */
  lemma ReadsOperation(cmd: string, op: string)
    requires |op| <= |cmd| && cmd[..|op|] == op && ' ' !in op
    requires |op| == |cmd| || cmd[|op|] == ' '
    ensures Parse(cmd) == ParseArguments(cmd, op, |op|)
  {
    assert cmd[0..|op|] == cmd[..|op|];
    ReadsWordAt(cmd, 0, op);
  }

  /** next_word(cmd, ++i) reads word when it is spelled just after i. */
  lemma ReadsWordAfter(cmd: string, i: nat, word: string)
    requires i + 1 + |word| <= |cmd| && cmd[i + 1..i + 1 + |word|] == word && ' ' !in word
    requires i + 1 + |word| == |cmd| || cmd[i + 1 + |word|] == ' '
    ensures WordAfter(cmd, i) == Some(Token(word, i + 1 + |word|))
  {
    ReadsWordAt(cmd, i + 1, word);
  }

  /** "get k", "del k" and "hgetall k" for a key without spaces. */
  lemma ParseKeyCommand(op: string, key: string)
    requires op == "get" || op == "del" || op == "hgetall"
    requires ' ' !in key
    ensures Parse(op + " " + key) == (if op == "get" then Get(key) else if op == "del" then Del(key) else HGetAll(key))
  {
    var cmd := op + " " + key;
    assert cmd[..|op|] == op && cmd[|op|] == ' ' && cmd[|op| + 1..] == key;
    ReadsOperation(cmd, op);
    ReadsWordAfter(cmd, |op|, key);
  }

  /** The set branch reads a key and then everything after it and one separator. */
  lemma SetArguments(cmd: string, opEnd: nat, key: string, value: string)
    requires opEnd + 2 + |key| <= |cmd| && cmd[opEnd + 1..opEnd + 1 + |key|] == key && ' ' !in key
    requires cmd[opEnd + 1 + |key|] == ' ' && cmd[opEnd + 2 + |key|..] == value
    ensures ParseArguments(cmd, "set", opEnd) == Set(key, value)
  {
    ReadsWordAfter(cmd, opEnd, key);
  }

  /** "set k v" for a key without spaces reads the value as everything after the key and one space. */
  lemma ParseSet(key: string, value: string)
    requires ' ' !in key
    ensures Parse("set " + key + " " + value) == Set(key, value)
  {
    var cmd := "set " + key + " " + value;
    assert cmd[..3] == "set" && cmd[3] == ' ';
    ReadsOperation(cmd, "set");
    assert cmd[4..4 + |key|] == key && cmd[4 + |key|] == ' ' && cmd[5 + |key|..] == value;
    SetArguments(cmd, 3, key, value);
  }

  /** The hget branch reads a key and a field. */
  lemma HGetArguments(cmd: string, opEnd: nat, key: string, field: string)
    requires opEnd + 2 + |key| + |field| == |cmd| && ' ' !in key && ' ' !in field
    requires cmd[opEnd + 1..opEnd + 1 + |key|] == key && cmd[opEnd + 1 + |key|] == ' '
    requires cmd[opEnd + 2 + |key|..] == field
    ensures ParseArguments(cmd, "hget", opEnd) == HGet(key, field)
  {
    ReadsWordAfter(cmd, opEnd, key);
    ReadsWordAfter(cmd, opEnd + 1 + |key|, field);
  }

  /** "hget k f" for a key and a field without spaces. */
  lemma ParseHGet(key: string, field: string)
    requires ' ' !in key && ' ' !in field
    ensures Parse("hget " + key + " " + field) == HGet(key, field)
  {
    var cmd := "hget " + key + " " + field;
    assert cmd[..4] == "hget" && cmd[4] == ' ';
    ReadsOperation(cmd, "hget");
    assert cmd[5..5 + |key|] == key && cmd[5 + |key|] == ' ' && cmd[6 + |key|..] == field;
    HGetArguments(cmd, 4, key, field);
  }

  /** The hset branch reads a key, a field and then everything after the field and one separator. */
  lemma HSetArguments(cmd: string, opEnd: nat, key: string, field: string, value: string)
    requires opEnd + 3 + |key| + |field| <= |cmd| && ' ' !in key && ' ' !in field
    requires cmd[opEnd + 1..opEnd + 1 + |key|] == key && cmd[opEnd + 1 + |key|] == ' '
    requires cmd[opEnd + 2 + |key|..opEnd + 2 + |key| + |field|] == field && cmd[opEnd + 2 + |key| + |field|] == ' '
    requires cmd[opEnd + 3 + |key| + |field|..] == value
    ensures ParseArguments(cmd, "hset", opEnd) == HSet(key, field, value)
  {
    ReadsWordAfter(cmd, opEnd, key);
    ReadsWordAfter(cmd, opEnd + 1 + |key|, field);
  }

  /** Where the words of "hset k f v" sit. */
  lemma HSetLayout(key: string, field: string, value: string)
    ensures var cmd := "hset " + key + " " + field + " " + value;
      cmd[..4] == "hset" && cmd[4] == ' ' && cmd[5..5 + |key|] == key && cmd[5 + |key|] == ' '
      && cmd[6 + |key|..6 + |key| + |field|] == field && cmd[6 + |key| + |field|] == ' '
      && cmd[7 + |key| + |field|..] == value
  {
    var cmd := "hset " + key + " " + field + " " + value;
    var head := "hset " + key + " " + field;
    assert cmd == head + (" " + value);
    assert head[..4] == "hset" && head[4] == ' ' && head[5..5 + |key|] == key && head[5 + |key|] == ' ';
    assert head[6 + |key|..] == field;
  }

  /** "hset k f v" for a key and a field without spaces reads the value as everything after the field and one space. */
  lemma ParseHSet(key: string, field: string, value: string)
    requires ' ' !in key && ' ' !in field
    ensures Parse("hset " + key + " " + field + " " + value) == HSet(key, field, value)
  {
    HSetLayout(key, field, value);
    var cmd := "hset " + key + " " + field + " " + value;
    ReadsOperation(cmd, "hset");
    HSetArguments(cmd, 4, key, field, value);
  }

  /** An operation with nothing after it reads past the end of the command. */
  lemma ParseBareOperation(op: string)
    requires op in {"get", "set", "del", "hget", "hset", "hgetall"}
    ensures Parse(op) == Truncated
  {
    ReadsOperation(op, op);
  }

  /** "set k", "hget k" and "hset k" stop after the key, so the value or the field is read past the end. */
  lemma ParseMissingArgument(op: string, key: string)
    requires op in {"set", "hget", "hset"} && ' ' !in key
    ensures Parse(op + " " + key) == Truncated
  {
    var cmd := op + " " + key;
    assert cmd[..|op|] == op && cmd[|op|] == ' ' && cmd[|op| + 1..] == key;
    ReadsOperation(cmd, op);
    ReadsWordAfter(cmd, |op|, key);
  }

  /** A command whose first word is none of the six operations answers "" and changes nothing. */
  lemma UnknownOperation(s: Store, cmd: string, listing: seq<(string, string)>)
    requires cmd[..WordEnd(cmd, 0)] !in {"get", "set", "del", "hget", "hset", "hgetall"}
    ensures Apply(s, Parse(cmd), listing) == Outcome(Text(""), s)
  {
  }

  /** set stores the value under the key; a following get returns it. */
  lemma SetThenGet(s: Store, key: string, value: string, listing: seq<(string, string)>)
    ensures var after := Apply(s, Set(key, value), listing);
      after.reply == Text("OK") && Apply(after.store, Get(key), listing) == Outcome(Text(value), after.store)
  {
  }

  /** get answers the stored value, or "" for an absent key; it changes nothing. */
  lemma GetAnswers(s: Store, key: string, listing: seq<(string, string)>)
    ensures Apply(s, Get(key), listing).store == s
    ensures key !in s.values ==> Apply(s, Get(key), listing).reply == Text("")
    ensures key in s.values ==> Apply(s, Get(key), listing).reply == Text(s.values[key])
  {
  }

  /** del answers the previous value (or "") and afterwards the key is absent and the other keys are untouched. */
  lemma DelRemoves(s: Store, key: string, listing: seq<(string, string)>)
    ensures var after := Apply(s, Del(key), listing);
      after.reply == Text(if key in s.values then s.values[key] else "")
      && key !in after.store.values
      && (forall k | k in s.values && k != key :: k in after.store.values && after.store.values[k] == s.values[k])
      && after.store.values.Keys <= s.values.Keys
      && Apply(after.store, Get(key), listing).reply == Text("")
  {
  }

  /** Of two sets of the same key the last wins: the stores end as if only the second had run. */
  lemma LastSetWins(s: Store, key: string, first: string, second: string, listing: seq<(string, string)>)
    ensures Apply(Apply(s, Set(key, first), listing).store, Set(key, second), listing).store
      == Apply(s, Set(key, second), listing).store
  {
  }

  /** hset stores the value at key.field; a following hget returns it, and the key's other fields keep theirs. */
  lemma HSetThenHGet(s: Store, key: string, field: string, value: string, listing: seq<(string, string)>)
    ensures var after := Apply(s, HSet(key, field, value), listing);
      after.reply == Text("OK")
      && Apply(after.store, HGet(key, field), listing) == Outcome(Text(value), after.store)
      && (forall f | key in s.hashes && f in s.hashes[key] && f != field ::
            Apply(after.store, HGet(key, f), listing).reply == Text(s.hashes[key][f]))
  {
  }

  /** hget answers "" when the key or the field is missing, and changes nothing. */
  lemma HGetMissing(s: Store, key: string, field: string, listing: seq<(string, string)>)
    requires key !in s.hashes || field !in s.hashes[key]
    ensures Apply(s, HGet(key, field), listing) == Outcome(Text(""), s)
  {
  }

  /** The two stores are independent: get, set and del leave the hashes alone, hget, hset and hgetall the values. */
  lemma StoresIndependent(s: Store, c: Command, listing: seq<(string, string)>)
    ensures (c.Get? || c.Set? || c.Del?) ==> Apply(s, c, listing).store.hashes == s.hashes
    ensures (c.HGet? || c.HSet? || c.HGetAll?) ==> Apply(s, c, listing).store.values == s.values
    ensures !(c.Set? || c.Del? || c.HSet?) ==> Apply(s, c, listing).store == s
  {
  }

  lemma {:induction false} EntriesAppend(a: seq<(string, string)>, b: seq<(string, string)>)
    ensures Entries(a + b) == Entries(a) + Entries(b)
    decreases |b|
  {
    if b == [] {
      assert a + b == a;
    } else {
      var last := b[|b| - 1];
      assert (a + b)[..|a + b| - 1] == a + b[..|b| - 1];
      EntriesAppend(a, b[..|b| - 1]);
    }
  }

  lemma SplitAt<T>(s: seq<T>, n: nat)
    requires n <= |s|
    ensures s[..n] + s[n..] == s
  {
  }

  /** The i-th pair of a listing contributes its own entry between those before and after it. */
  lemma EntryAt(listing: seq<(string, string)>, i: nat)
    requires i < |listing|
    ensures Entries(listing) == Entries(listing[..i]) + Entry(listing[i].0, listing[i].1) + Entries(listing[i + 1..])
  {
    var upTo, rest := listing[..i + 1], listing[i + 1..];
    assert Entries(upTo) == Entries(listing[..i]) + Entry(listing[i].0, listing[i].1) by {
      assert upTo[..i] == listing[..i];
    }
    assert Entries(listing) == Entries(upTo) + Entries(rest) by {
      EntriesAppend(upTo, rest);
      SplitAt(listing, i + 1);
    }
  }

  /**
   * hgetall of an absent key answers ""; otherwise the answer is "{ " and "}" around the entries,
   * and each field of the key shows up as its own `"f": "v", ` entry.
   */
  lemma HGetAllShowsFields(s: Store, key: string, listing: seq<(string, string)>, field: string)
    requires key in s.hashes ==> Lists(listing, s.hashes[key])
    ensures key !in s.hashes ==> Apply(s, HGetAll(key), listing).reply == Text("")
    ensures key in s.hashes && field in s.hashes[key] ==> exists before, after ::
      Apply(s, HGetAll(key), listing).reply == Text("{ " + (before + Entry(field, s.hashes[key][field]) + after) + "}")
  {
    if key in s.hashes && field in s.hashes[key] {
      var i :| 0 <= i < |listing| && listing[i].0 == field;
      EntryAt(listing, i);
      var before, after := Entries(listing[..i]), Entries(listing[i + 1..]);
      assert Json(listing) == "{ " + (before + Entry(field, s.hashes[key][field]) + after) + "}";
    }
  }

  /** The state after each row of the driver (src/hashmap_redis.cc:121-136), which shares one server. */
  const Start := Store(map[], map[])
  const SomeValue := Store(map["some_key" := "some value"], map[])
  const OtherValue := Store(map["some_key" := "some other value"], map[])
  const AnotherValue := Store(map["some_key" := "another value"], map[])
  const OneField := Store(map["some_key" := "another value"], map["h_key" := map["field1" := "some field value 1"]])
  const TwoFields := Store(map["some_key" := "another value"],
    map["h_key" := map["field1" := "some field value 1", "field2" := "some field value 2"]])

  /** redis on a state, for the commands that list no fields. */
  function Execute(s: Store, cmd: string): Outcome
  {
    Apply(s, Parse(cmd), [])
  }

  lemma SetRow()
    ensures Execute(Start, "set " + "some_key" + " " + "some value") == Outcome(Text("OK"), SomeValue)
  {
    ParseSet("some_key", "some value");
  }

  lemma GetRow()
    ensures Execute(SomeValue, "get" + " " + "some_key") == Outcome(Text("some value"), SomeValue)
  {
    ParseKeyCommand("get", "some_key");
  }

  lemma GetMissingRow()
    ensures Execute(SomeValue, "get" + " " + "some_missing_key") == Outcome(Text(""), SomeValue)
  {
    ParseKeyCommand("get", "some_missing_key");
  }

  lemma DelRow()
    ensures Execute(SomeValue, "del" + " " + "some_key") == Outcome(Text("some value"), Start)
  {
    ParseKeyCommand("del", "some_key");
  }

  lemma GetDeletedRow()
    ensures Execute(Start, "get" + " " + "some_key") == Outcome(Text(""), Start)
  {
    ParseKeyCommand("get", "some_key");
  }

  lemma SetOtherRow()
    ensures Execute(Start, "set " + "some_key" + " " + "some other value") == Outcome(Text("OK"), OtherValue)
  {
    ParseSet("some_key", "some other value");
  }

  lemma SetAnotherRow()
    ensures Execute(OtherValue, "set " + "some_key" + " " + "another value") == Outcome(Text("OK"), AnotherValue)
  {
    ParseSet("some_key", "another value");
  }

  lemma GetAnotherRow()
    ensures Execute(AnotherValue, "get" + " " + "some_key") == Outcome(Text("another value"), AnotherValue)
  {
    ParseKeyCommand("get", "some_key");
  }

  lemma HSetFirstRow()
    ensures Execute(AnotherValue, "hset " + "h_key" + " " + "field1" + " " + "some field value 1") == Outcome(Text("OK"), OneField)
  {
    ParseHSet("h_key", "field1", "some field value 1");
  }

  lemma HSetSecondRow()
    ensures Execute(OneField, "hset " + "h_key" + " " + "field2" + " " + "some field value 2") == Outcome(Text("OK"), TwoFields)
  {
    ParseHSet("h_key", "field2", "some field value 2");
    assert OneField.hashes["h_key" := TwoFields.hashes["h_key"]] == TwoFields.hashes;
  }

  lemma HGetFirstRow()
    ensures Execute(TwoFields, "hget " + "h_key" + " " + "field1") == Outcome(Text("some field value 1"), TwoFields)
  {
    ParseHGet("h_key", "field1");
  }

  lemma HGetSecondRow()
    ensures Execute(TwoFields, "hget " + "h_key" + " " + "field2") == Outcome(Text("some field value 2"), TwoFields)
  {
    ParseHGet("h_key", "field2");
  }

  lemma HGetMissingFieldRow()
    ensures Execute(TwoFields, "hget " + "h_key" + " " + "field3") == Outcome(Text(""), TwoFields)
  {
    ParseHGet("h_key", "field3");
  }

  lemma HGetMissingKeyRow()
    ensures Execute(TwoFields, "hget " + "h_missing_key" + " " + "field") == Outcome(Text(""), TwoFields)
  {
    ParseHGet("h_missing_key", "field");
  }

  /** The JSON for h_key's two fields, handed out as field1 then field2. */
  lemma TwoFieldsJson()
    ensures Json([("field1", "some field value 1"), ("field2", "some field value 2")])
      == "{ " + Entry("field1", "some field value 1") + Entry("field2", "some field value 2") + "}"
  {
    var listing := [("field1", "some field value 1"), ("field2", "some field value 2")];
    assert listing[..1][..0] == [];
    assert listing[..1] == [("field1", "some field value 1")];
    assert Entries(listing[..1]) == Entry("field1", "some field value 1");
    assert Entries(listing) == Entry("field1", "some field value 1") + Entry("field2", "some field value 2");
  }

  /** The last row, with the fields handed out as field1 then field2. */
  lemma HGetAllRow()
    ensures Apply(TwoFields, Parse("hgetall" + " " + "h_key"), [("field1", "some field value 1"), ("field2", "some field value 2")])
      == Outcome(Text("{ " + Entry("field1", "some field value 1") + Entry("field2", "some field value 2") + "}"), TwoFields)
  {
    ParseKeyCommand("hgetall", "h_key");
    TwoFieldsJson();
  }
}
