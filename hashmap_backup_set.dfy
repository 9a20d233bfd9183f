/**
 * Backup sets (src/hashmap_backup_set.cc): files identified by the sha1 hash of their contents,
 * compared between two sets, and written to and read from a line-per-file text buffer.
 *
 * The std::map of a set is kept as its entries in ascending hash order, which is the order the
 * source's loops visit them in.
 */
module BackupSets {
  import opened Wrappers

  /** std::string's operator<: lexicographic order by character code. */
  predicate Below(a: string, b: string)
    decreases |a|
  {
    |b| > 0 && (|a| == 0 || a[0] < b[0] || (a[0] == b[0] && Below(a[1..], b[1..])))
  }

  lemma {:induction false} BelowIrreflexive(a: string)
    ensures !Below(a, a)
    decreases |a|
  {
    if |a| > 0 {
      BelowIrreflexive(a[1..]);
    }
  }

  lemma {:induction false} BelowTransitive(a: string, b: string, c: string)
    requires Below(a, b) && Below(b, c)
    ensures Below(a, c)
    decreases |a|
  {
    if |a| > 0 && a[0] == b[0] && b[0] == c[0] {
      BelowTransitive(a[1..], b[1..], c[1..]);
    }
  }

  /** Any two different strings are ordered one way round. */
  lemma {:induction false} BelowTotal(a: string, b: string)
    ensures a == b || Below(a, b) || Below(b, a)
    decreases |a|
  {
    if |a| > 0 && |b| > 0 && a[0] == b[0] {
      BelowTotal(a[1..], b[1..]);
      if a[1..] == b[1..] {
        assert a == [a[0]] + a[1..] && b == [b[0]] + b[1..];
      }
    }
  }

  lemma {:induction false} BelowAsymmetric(a: string, b: string)
    requires Below(a, b)
    ensures !Below(b, a)
    decreases |a|
  {
    if |a| > 0 && a[0] == b[0] {
      BelowAsymmetric(a[1..], b[1..]);
    }
  }

  /** A (sha1 hash, filename) pair. */
  type Entry = (string, string)

  predicate Ascending(entries: seq<Entry>)
  {
    forall i, j | 0 <= i < j < |entries| :: Below(entries[i].0, entries[j].0)
  }

  function Hashes(entries: seq<Entry>): set<string>
  {
    if entries == [] then {} else {entries[0].0} + Hashes(entries[1..])
  }

  /** The hashes are those of the entries. */
  lemma {:induction false} HashesMember(entries: seq<Entry>, h: string)
    ensures h in Hashes(entries) <==> exists i :: 0 <= i < |entries| && entries[i].0 == h
  {
    if entries != [] {
      HashesMember(entries[1..], h);
      if h in Hashes(entries[1..]) {
        var i :| 0 <= i < |entries[1..]| && entries[1..][i].0 == h;
        assert entries[i + 1].0 == h;
      }
      if exists i :: 0 <= i < |entries| && entries[i].0 == h {
        var i :| 0 <= i < |entries| && entries[i].0 == h;
        if i > 0 {
          assert entries[1..][i - 1].0 == h;
        }
      }
    }
  }

  /** The map the entries stand for. */
  function Files(entries: seq<Entry>): (m: map<string, string>)
    ensures m.Keys == Hashes(entries)
  {
    if entries == [] then map[] else Files(entries[1..])[entries[0].0 := entries[0].1]
  }

  /** std::map's operator[] followed by an assignment: insert or overwrite, keeping the order. */
  function Insert(entries: seq<Entry>, hash: string, filename: string): (r: seq<Entry>)
    ensures Hashes(r) == Hashes(entries) + {hash}
    ensures Ascending(entries) ==> Ascending(r)
  {
    if entries == [] then [(hash, filename)]
    else if entries[0].0 == hash then
      assert ([(hash, filename)] + entries[1..])[1..] == entries[1..];
      [(hash, filename)] + entries[1..]
    else if Below(hash, entries[0].0) then
      InsertFirstAscending(entries, hash);
      assert ([(hash, filename)] + entries)[1..] == entries;
      [(hash, filename)] + entries
    else
      var rest := Insert(entries[1..], hash, filename);
      BelowTotal(hash, entries[0].0);
      InsertTailAscending(entries, hash, rest);
      assert ([entries[0]] + rest)[1..] == rest;
      [entries[0]] + rest
  }

  /** Insert maps the hash to the filename and leaves every other hash as it was. */
  lemma {:induction false} InsertFiles(entries: seq<Entry>, hash: string, filename: string)
    ensures Files(Insert(entries, hash, filename)) == Files(entries)[hash := filename]
  {
    if entries == [] {
      assert [(hash, filename)][1..] == [];
    } else if entries[0].0 == hash {
      assert ([(hash, filename)] + entries[1..])[1..] == entries[1..];
    } else if Below(hash, entries[0].0) {
      assert ([(hash, filename)] + entries)[1..] == entries;
    } else {
      InsertFiles(entries[1..], hash, filename);
      InsertFilesTail(entries, hash, filename);
    }
  }

  lemma InsertFilesTail(entries: seq<Entry>, hash: string, filename: string)
    requires entries != [] && entries[0].0 != hash && !Below(hash, entries[0].0)
    requires Files(Insert(entries[1..], hash, filename)) == Files(entries[1..])[hash := filename]
    ensures Files(Insert(entries, hash, filename)) == Files(entries)[hash := filename]
  {
    var rest := Insert(entries[1..], hash, filename);
    var tail := Files(entries[1..]);
    assert Files(Insert(entries, hash, filename)) == Files(rest)[entries[0].0 := entries[0].1] by {
      assert Insert(entries, hash, filename) == [entries[0]] + rest;
      assert ([entries[0]] + rest)[1..] == rest;
    }
    Commute(tail, hash, filename, entries[0].0, entries[0].1);
  }

  lemma Commute<K, V>(m: map<K, V>, a: K, x: V, b: K, y: V)
    requires a != b
    ensures m[a := x][b := y] == m[b := y][a := x]
  {
  }

  lemma InsertFirstAscending(entries: seq<Entry>, hash: string)
    requires |entries| > 0 && Below(hash, entries[0].0)
    ensures Ascending(entries) ==> forall j | 0 <= j < |entries| :: Below(hash, entries[j].0)
  {
    if Ascending(entries) {
      forall j | 0 < j < |entries|
        ensures Below(hash, entries[j].0)
      {
        BelowTransitive(hash, entries[0].0, entries[j].0);
      }
    }
  }

  lemma InsertTailAscending(entries: seq<Entry>, hash: string, rest: seq<Entry>)
    requires |entries| > 0 && Below(entries[0].0, hash)
    requires Hashes(rest) == Hashes(entries[1..]) + {hash}
    requires Ascending(entries) ==> Ascending(rest)
    ensures Ascending(entries) ==> Ascending([entries[0]] + rest)
  {
    if Ascending(entries) {
      forall j | 0 <= j < |rest|
        ensures Below(entries[0].0, rest[j].0)
      {
        HashesMember(rest, rest[j].0);
        if rest[j].0 != hash {
          HashesMember(entries[1..], rest[j].0);
          var k :| 0 <= k < |entries[1..]| && entries[1..][k].0 == rest[j].0;
          assert entries[k + 1].0 == rest[j].0;
        }
      }
    }
  }

  /** A hash above every hash of the list goes at the end. */
  lemma {:induction false} InsertAbove(entries: seq<Entry>, hash: string, filename: string)
    requires Ascending(entries) && forall i | 0 <= i < |entries| :: Below(entries[i].0, hash)
    ensures Insert(entries, hash, filename) == entries + [(hash, filename)]
  {
    if entries != [] {
      BelowAsymmetric(entries[0].0, hash);
      BelowIrreflexive(hash);
      InsertAbove(entries[1..], hash, filename);
      assert [entries[0]] + (entries[1..] + [(hash, filename)]) == entries + [(hash, filename)];
    }
  }

  /** The filenames of the entries of theirs, in their order, whose hash mine does not hold. */
  function Missing(mine: map<string, string>, theirs: seq<Entry>): seq<string>
  {
    if theirs == [] then []
    else Missing(mine, theirs[..|theirs| - 1]) + (if theirs[|theirs| - 1].0 in mine then [] else [theirs[|theirs| - 1].1])
  }

  /** A filename is reported exactly when it belongs to an entry of theirs whose hash mine lacks. */
  lemma {:induction false} MissingMembers(mine: map<string, string>, theirs: seq<Entry>, filename: string)
    ensures filename in Missing(mine, theirs) <==>
      exists i :: 0 <= i < |theirs| && theirs[i].0 !in mine && theirs[i].1 == filename
  {
    if theirs != [] {
      var front := theirs[..|theirs| - 1];
      MissingMembers(mine, front, filename);
      if filename in Missing(mine, front) {
        var i :| 0 <= i < |front| && front[i].0 !in mine && front[i].1 == filename;
        assert theirs[i] == front[i];
      }
      if exists i :: 0 <= i < |theirs| && theirs[i].0 !in mine && theirs[i].1 == filename {
        var i :| 0 <= i < |theirs| && theirs[i].0 !in mine && theirs[i].1 == filename;
        if i < |front| {
          assert front[i] == theirs[i];
        }
      }
    }
  }

  /** As many filenames are reported as theirs has entries whose hash mine lacks, at most all of them. */
  lemma {:induction false} MissingCount(mine: map<string, string>, theirs: seq<Entry>)
    ensures |Missing(mine, theirs)| <= |theirs|
    ensures (forall i | 0 <= i < |theirs| :: theirs[i].0 in mine) <==> Missing(mine, theirs) == []
  {
    if theirs != [] {
      var front := theirs[..|theirs| - 1];
      MissingCount(mine, front);
      if forall i | 0 <= i < |theirs| :: theirs[i].0 in mine {
        assert forall i | 0 <= i < |front| :: front[i].0 in mine by {
          forall i | 0 <= i < |front|
            ensures front[i].0 in mine
          {
            assert front[i] == theirs[i];
          }
        }
      } else if Missing(mine, front) == [] {
        assert theirs[|theirs| - 1].0 !in mine by {
          var i :| 0 <= i < |theirs| && theirs[i].0 !in mine;
          if i < |front| {
            assert front[i] == theirs[i];
          }
        }
      }
    }
  }

  /** A set misses nothing of itself. */
  lemma MissingSelf(entries: seq<Entry>)
    ensures Missing(Files(entries), entries) == []
  {
    forall i | 0 <= i < |entries|
      ensures entries[i].0 in Files(entries)
    {
      HashesMember(entries, entries[i].0);
    }
    MissingCount(Files(entries), entries);
  }

  /** One written line: the hash, a space, the filename, the line terminator. */
  function Line(entry: Entry): string
  {
    entry.0 + " " + entry.1 + "\n"
  }

  /** What write produces. */
  function Serialize(entries: seq<Entry>): string
  {
    if entries == [] then "" else Serialize(entries[..|entries| - 1]) + Line(entries[|entries| - 1])
  }

  /** std::isspace in the "C" locale: space, tab, newline, vertical tab, form feed, carriage return. */
  predicate IsSpace(c: char)
  {
    c == ' ' || c == '\t' || c == '\n' || c == 11 as char || c == 12 as char || c == '\r'
  }

  /** The first index at or after i that holds no whitespace, or the end. */
  function SkipSpace(s: string, i: nat): (j: nat)
    requires i <= |s|
    ensures i <= j <= |s| && (j == |s| || !IsSpace(s[j]))
    ensures forall k | i <= k < j :: IsSpace(s[k])
    decreases |s| - i
  {
    if i < |s| && IsSpace(s[i]) then SkipSpace(s, i + 1) else i
  }

  /** The first whitespace at or after i, or the end. */
  function TokenEnd(s: string, i: nat): (j: nat)
    requires i <= |s|
    ensures i <= j <= |s| && (j == |s| || IsSpace(s[j]))
    ensures forall k | i <= k < j :: !IsSpace(s[k])
    decreases |s| - i
  {
    if i < |s| && !IsSpace(s[i]) then TokenEnd(s, i + 1) else i
  }

  /**
   * One line through `line_stream >> sha1hash >> std::ws` and `getline(line_stream, filename)`:
   * the first whitespace-delimited token, then the rest after the whitespace that follows it.
   * The line fails when it has no token, or nothing after the token and its whitespace.
   */
  function ParseLine(line: string): (r: Option<Entry>)
    ensures r.Some? ==> |r.value.0| > 0 && |r.value.1| > 0 && !IsSpace(r.value.1[0])
    ensures r.Some? ==> forall k | 0 <= k < |r.value.0| :: !IsSpace(r.value.0[k])
  {
    var start := SkipSpace(line, 0);
    var hashEnd := TokenEnd(line, start);
    if hashEnd == start then None
    else
      var nameStart := SkipSpace(line, hashEnd);
      if nameStart == |line| then None else Some((line[start..hashEnd], line[nameStart..]))
  }

  /** A line that parses holds two words: non-whitespace, then whitespace, then non-whitespace. */
  lemma ParseLineHasWords(line: string)
    requires ParseLine(line).Some?
    ensures exists i, k, j :: 0 <= i < k < j < |line| && !IsSpace(line[i]) && IsSpace(line[k]) && !IsSpace(line[j])
  {
    var start := SkipSpace(line, 0);
    var hashEnd := TokenEnd(line, start);
    var nameStart := SkipSpace(line, hashEnd);
    assert 0 <= start < hashEnd < nameStart < |line|;
    assert !IsSpace(line[start]) && IsSpace(line[hashEnd]) && !IsSpace(line[nameStart]);
  }

  /** A line that holds two words parses. */
  lemma WordsParse(line: string, i: nat, k: nat, j: nat)
    requires i < k < j < |line| && !IsSpace(line[i]) && IsSpace(line[k]) && !IsSpace(line[j])
    ensures ParseLine(line).Some?
  {
    var start := SkipSpace(line, 0);
    assert start <= i;
    var hashEnd := TokenEnd(line, start);
    assert start < hashEnd <= k;
    var nameStart := SkipSpace(line, hashEnd);
    assert nameStart <= j;
  }

  /** A line parses exactly when it holds two words. */
  lemma ParseLineSucceeds(line: string)
    ensures ParseLine(line).Some? <==>
      exists i, k, j :: 0 <= i < k < j < |line| && !IsSpace(line[i]) && IsSpace(line[k]) && !IsSpace(line[j])
  {
    if ParseLine(line).Some? {
      ParseLineHasWords(line);
    } else if exists i, k, j :: 0 <= i < k < j < |line| && !IsSpace(line[i]) && IsSpace(line[k]) && !IsSpace(line[j]) {
      var i, k, j :| 0 <= i < k < j < |line| && !IsSpace(line[i]) && IsSpace(line[k]) && !IsSpace(line[j]);
      WordsParse(line, i, k, j);
    }
  }

  /** A written line without its terminator: the hash, a space, the filename. */
  function Text(entry: Entry): string
  {
    entry.0 + " " + entry.1
  }

  /**
   * An entry that a written line carries back unchanged: a hash without whitespace, a filename
   * that does not start with whitespace, both nonempty, and no line terminator in the filename.
   */
  predicate Readable(entry: Entry)
  {
    |entry.0| > 0 && (forall k | 0 <= k < |entry.0| :: !IsSpace(entry.0[k]))
    && |entry.1| > 0 && !IsSpace(entry.1[0]) && '\n' !in entry.1
  }

  /** A written line parses back into its entry. */
  lemma ParseText(entry: Entry)
    requires Readable(entry)
    ensures ParseLine(Text(entry)) == Some(entry)
  {
    var line := Text(entry);
    var n := |entry.0|;
    assert line[n] == ' ' && line[n + 1] == entry.1[0];
    assert SkipSpace(line, 0) == 0 by {
      assert line[0] == entry.0[0];
    }
    assert TokenEnd(line, 0) == n by {
      forall k | 0 <= k < n
        ensures line[k] == entry.0[k]
      {
      }
    }
    assert line[..n] == entry.0 && line[n + 1..] == entry.1;
  }

  /** Parsing is idempotent: a line that parses, written back, parses to the same entry. */
  lemma ParseTextAgain(line: string)
    requires '\n' !in line && ParseLine(line).Some?
    ensures Readable(ParseLine(line).value) && ParseLine(Text(ParseLine(line).value)) == ParseLine(line)
  {
    var entry := ParseLine(line).value;
    assert entry.1 == line[SkipSpace(line, TokenEnd(line, SkipSpace(line, 0)))..];
    ParseText(entry);
  }

  /** Where std::getline stops: the first '\n' at or after i, or the end. */
  function LineEnd(s: string, i: nat): (j: nat)
    requires i <= |s|
    ensures i <= j <= |s| && (j == |s| || s[j] == '\n')
    ensures forall k | i <= k < j :: s[k] != '\n'
    decreases |s| - i
  {
    if i < |s| && s[i] != '\n' then LineEnd(s, i + 1) else i
  }

  /** The lines std::getline yields: split at '\n', with no empty line after a final '\n'. */
  function Lines(s: string): seq<string>
    decreases |s|
  {
    if s == [] then []
    else
      var n := LineEnd(s, 0);
      if n == |s| then [s] else [s[..n]] + Lines(s[n + 1..])
  }

  /** read: each line that parses is added to the set, in the order of the lines. */
  function ReadLines(entries: seq<Entry>, lines: seq<string>): (r: seq<Entry>)
    ensures Ascending(entries) ==> Ascending(r)
    decreases |lines|
  {
    if lines == [] then entries
    else
      match ParseLine(lines[0])
      case None => ReadLines(entries, lines[1..])
      case Some(entry) => ReadLines(Insert(entries, entry.0, entry.1), lines[1..])
  }

  /** A line that holds no terminator comes out of the buffer whole, ahead of the rest. */
  lemma LinesCons(line: string, rest: string)
    requires '\n' !in line
    ensures Lines(line + "\n" + rest) == [line] + Lines(rest)
  {
    var s := line + "\n" + rest;
    assert s[|line|] == '\n';
    assert forall k | 0 <= k < |line| :: s[k] == line[k];
    assert LineEnd(s, 0) == |line|;
    assert s[..|line|] == line && s[|line| + 1..] == rest;
  }

  /** Serialize, read from its first entry on. */
  lemma {:induction false} SerializeCons(entries: seq<Entry>)
    requires entries != []
    ensures Serialize(entries) == Line(entries[0]) + Serialize(entries[1..])
    decreases |entries|
  {
    var n := |entries|;
    if n > 1 {
      var front := entries[..n - 1];
      SerializeCons(front);
      assert front[1..] == entries[1..][..n - 2] && front[0] == entries[0];
      assert entries[1..][n - 2] == entries[n - 1];
    }
  }

  /** The lines of entries without their terminators. */
  function Texts(entries: seq<Entry>): (lines: seq<string>)
    ensures |lines| == |entries|
  {
    if entries == [] then [] else [Text(entries[0])] + Texts(entries[1..])
  }

  /** The written buffer splits back into one line per entry. */
  lemma {:induction false} LinesSerialize(entries: seq<Entry>)
    requires forall i | 0 <= i < |entries| :: Readable(entries[i])
    ensures Lines(Serialize(entries)) == Texts(entries)
    decreases |entries|
  {
    if entries != [] {
      SerializeCons(entries);
      assert Readable(entries[0]);
      assert '\n' !in Text(entries[0]) by {
        assert forall k | 0 <= k < |entries[0].0| :: Text(entries[0])[k] == entries[0].0[k];
        assert forall k | |entries[0].0| < k < |Text(entries[0])| :: Text(entries[0])[k] == entries[0].1[k - |entries[0].0| - 1];
      }
      assert Line(entries[0]) + Serialize(entries[1..]) == Text(entries[0]) + "\n" + Serialize(entries[1..]);
      LinesCons(Text(entries[0]), Serialize(entries[1..]));
      LinesSerialize(entries[1..]);
    }
  }

  /** The entries added one after the other with addFile, as the test drivers build their sets. */
  function AddFiles(entries: seq<Entry>, files: seq<Entry>): seq<Entry>
    decreases |files|
  {
    if files == [] then entries else AddFiles(Insert(entries, files[0].0, files[0].1), files[1..])
  }

  /** Files given in ascending order above a set are appended to it. */
  lemma {:induction false} AddAscending(prefix: seq<Entry>, files: seq<Entry>)
    requires Ascending(prefix + files)
    ensures AddFiles(prefix, files) == prefix + files
    decreases |files|
  {
    if files != [] {
      var all := prefix + files;
      var e := files[0];
      assert Ascending(prefix) by {
        forall i, j | 0 <= i < j < |prefix|
          ensures Below(prefix[i].0, prefix[j].0)
        {
          assert prefix[i] == all[i] && prefix[j] == all[j];
        }
      }
      forall i | 0 <= i < |prefix|
        ensures Below(prefix[i].0, e.0)
      {
        assert prefix[i] == all[i] && e == all[|prefix|];
      }
      InsertAbove(prefix, e.0, e.1);
      assert (prefix + [e]) + files[1..] == all;
      AddAscending(prefix + [e], files[1..]);
    }
  }

  /** Reading the lines of readable entries adds those entries, one after the other. */
  lemma {:induction false} ReadTexts(entries: seq<Entry>, files: seq<Entry>)
    requires forall i | 0 <= i < |files| :: Readable(files[i])
    ensures ReadLines(entries, Texts(files)) == AddFiles(entries, files)
    decreases |files|
  {
    if files != [] {
      ParseText(files[0]);
      assert Texts(files)[1..] == Texts(files[1..]);
      ReadTexts(Insert(entries, files[0].0, files[0].1), files[1..]);
    }
  }

  /**
   * The round trip: reading what was written from an ordered set of readable entries yields that
   * set again, so writing it once more yields the same buffer.
   */
  lemma RoundTrip(entries: seq<Entry>)
    requires Ascending(entries)
    requires forall i | 0 <= i < |entries| :: Readable(entries[i])
    ensures ReadLines([], Lines(Serialize(entries))) == entries
    ensures Serialize(ReadLines([], Lines(Serialize(entries)))) == Serialize(entries)
  {
    LinesSerialize(entries);
    ReadTexts([], entries);
    assert [] + entries == entries;
    AddAscending([], entries);
  }

  /** Missing over two entries of theirs. */
  lemma MissingTwo(mine: map<string, string>, a: Entry, b: Entry)
    ensures Missing(mine, [a, b]) == (if a.0 in mine then [] else [a.1]) + (if b.0 in mine then [] else [b.1])
  {
    assert [a, b][..1] == [a] && [a][..0] == [];
    assert Missing(mine, [a]) == (if a.0 in mine then [] else [a.1]);
  }

  /** Two files added to an empty set: kept in hash order, the second winning on a shared hash. */
  lemma AddTwo(a: Entry, b: Entry)
    ensures AddFiles([], [a, b]) == if a.0 == b.0 then [b] else if Below(a.0, b.0) then [a, b] else [b, a]
  {
    assert [a, b][1..] == [b] && [b][1..] == [] && [a][1..] == [];
    assert Insert([], a.0, a.1) == [a];
    assert AddFiles([], [a, b]) == AddFiles([a], [b]);
    assert AddFiles([a], [b]) == AddFiles(Insert([a], b.0, b.1), []);
    BelowTotal(a.0, b.0);
    if a.0 != b.0 && Below(a.0, b.0) {
      BelowAsymmetric(a.0, b.0);
      assert Insert([a], b.0, b.1) == [a] + Insert([], b.0, b.1);
    }
  }

  /** Two sets sharing their first entry each miss the other's second one. */
  lemma MissingSecond(a: Entry, b: Entry, c: Entry)
    requires a.0 != b.0 && a.0 != c.0 && b.0 != c.0
    ensures Missing(Files([a, b]), [a, c]) == [c.1] && Missing(Files([a, c]), [a, b]) == [b.1]
  {
    assert [a, b][1..] == [b] && [a, c][1..] == [c] && [b][1..] == [] && [c][1..] == [];
    MissingTwo(Files([a, b]), a, c);
    MissingTwo(Files([a, c]), a, b);
  }

  /** The comparison row: each set misses the file that only the other holds. */
  lemma MissingFilesRow()
    ensures var oldSet := AddFiles([], [("11111", "c:\\temp\\something.pdf"), ("22222", "c:\\temp\\something else.pdf")]);
      var newSet := AddFiles([], [("33333", "c:\\temp\\another thing.pdf"), ("11111", "c:\\temp\\something.pdf")]);
      Missing(Files(oldSet), newSet) == ["c:\\temp\\another thing.pdf"]
      && Missing(Files(newSet), oldSet) == ["c:\\temp\\something else.pdf"]
  {
    var a, b, c := ("11111", "c:\\temp\\something.pdf"), ("22222", "c:\\temp\\something else.pdf"), ("33333", "c:\\temp\\another thing.pdf");
    assert Below(a.0, b.0) && Below(a.0, c.0) && !Below(c.0, a.0);
    AddTwo(a, b);
    AddTwo(c, a);
    MissingSecond(a, b, c);
  }

  /** Four entries whose hashes ascend step by step are in ascending order. */
  lemma AscendingFour(f: seq<Entry>)
    requires |f| == 4 && Below(f[0].0, f[1].0) && Below(f[1].0, f[2].0) && Below(f[2].0, f[3].0)
    ensures Ascending(f)
  {
    forall i, j | 0 <= i < j < 4
      ensures Below(f[i].0, f[j].0)
    {
      if j == i + 2 {
        BelowTransitive(f[i].0, f[i + 1].0, f[j].0);
      } else if j == i + 3 {
        BelowTransitive(f[i].0, f[i + 1].0, f[i + 2].0);
        BelowTransitive(f[i].0, f[i + 2].0, f[j].0);
      }
    }
  }

  /** Serialize over four entries. */
  lemma SerializeFour(f: seq<Entry>)
    requires |f| == 4
    ensures Serialize(f) == Line(f[0]) + Line(f[1]) + Line(f[2]) + Line(f[3])
  {
    var f3, f2, f1 := f[..3], f[..2], f[..1];
    assert f3[..2] == f2 && f2[..1] == f1 && f1[..0] == [];
    assert f3[2] == f[2] && f2[1] == f[1] && f1[0] == f[0];
    assert Serialize(f1) == Line(f[0]);
    assert Serialize(f2) == Serialize(f1) + Line(f[1]);
    assert Serialize(f3) == Serialize(f2) + Line(f[2]);
    assert Serialize(f) == Serialize(f3) + Line(f[3]);
  }

  /** A character repeated: the rows' hashes, such as forty '1's. */
  function Repeat(c: char, n: nat): (s: string)
    ensures |s| == n && forall k | 0 <= k < n :: s[k] == c
  {
    seq(n, _ => c)
  }

  /** The line of a row's file. */
  lemma RowLine(c: char, n: nat, name: string, rest: string)
    requires rest == " " + name + "\n"
    ensures Line((Repeat(c, n), name)) == Repeat(c, n) + rest
  {
  }

  /** The filename parts of the rows' lines. */
  lemma RowTails()
    ensures " " + "c:\\file 1.txt" + "\n" == " c:\\file 1.txt\n" && " " + "c:\\file 2.txt" + "\n" == " c:\\file 2.txt\n"
    ensures " " + "c:\\file 3.txt" + "\n" == " c:\\file 3.txt\n" && " " + "c:\\file 4.txt" + "\n" == " c:\\file 4.txt\n"
  {
  }

  /** A row's file is readable. */
  lemma RowReadable(c: char, n: nat, name: string)
    requires !IsSpace(c) && n > 0 && |name| > 0 && !IsSpace(name[0]) && '\n' !in name
    ensures Readable((Repeat(c, n), name))
  {
  }

  /** Row hashes ascend with their character. */
  lemma RowBelow(c: char, d: char, n: nat)
    requires c < d && n > 0
    ensures Below(Repeat(c, n), Repeat(d, n))
  {
  }

  /** The writer row's files, in the order the row adds them. */
  const WriterFiles: seq<Entry> := [(Repeat('1', 5), "c:\\file 1.txt"), (Repeat('2', 5), "c:\\file 2.txt"),
    (Repeat('3', 5), "c:\\file 3.txt"), (Repeat('4', 5), "c:\\file 4.txt")]

  /** The writer row: one line per file, in hash order. */
  lemma WriterRow()
    ensures Serialize(AddFiles([], WriterFiles)) ==
      (Repeat('1', 5) + " c:\\file 1.txt\n") + (Repeat('2', 5) + " c:\\file 2.txt\n") +
      (Repeat('3', 5) + " c:\\file 3.txt\n") + (Repeat('4', 5) + " c:\\file 4.txt\n")
  {
    var f := WriterFiles;
    RowBelow('1', '2', 5);
    RowBelow('2', '3', 5);
    RowBelow('3', '4', 5);
    AscendingFour(f);
    assert [] + f == f;
    AddAscending([], f);
    SerializeFour(f);
    RowTails();
    RowLine('1', 5, "c:\\file 1.txt", " c:\\file 1.txt\n");
    RowLine('2', 5, "c:\\file 2.txt", " c:\\file 2.txt\n");
    RowLine('3', 5, "c:\\file 3.txt", " c:\\file 3.txt\n");
    RowLine('4', 5, "c:\\file 4.txt", " c:\\file 4.txt\n");
  }

  /** The reader and round-trip rows' files. */
  const ReaderFiles: seq<Entry> := [(Repeat('1', 40), "c:\\file 1.txt"), (Repeat('2', 40), "c:\\file 2.txt"),
    (Repeat('3', 40), "c:\\file 3.txt"), (Repeat('4', 40), "c:\\file 4.txt")]

  /** The reader and round-trip rows' buffer. */
  const ReaderBuffer: string :=
    (Repeat('1', 40) + " c:\\file 1.txt\n") + (Repeat('2', 40) + " c:\\file 2.txt\n") +
    (Repeat('3', 40) + " c:\\file 3.txt\n") + (Repeat('4', 40) + " c:\\file 4.txt\n")

  /** The reader row's buffer is what its files are written as. */
  lemma ReaderLines()
    ensures Serialize(ReaderFiles) == ReaderBuffer
  {
    var f := ReaderFiles;
    SerializeFour(f);
    RowTails();
    RowLine('1', 40, "c:\\file 1.txt", " c:\\file 1.txt\n");
    RowLine('2', 40, "c:\\file 2.txt", " c:\\file 2.txt\n");
    RowLine('3', 40, "c:\\file 3.txt", " c:\\file 3.txt\n");
    RowLine('4', 40, "c:\\file 4.txt", " c:\\file 4.txt\n");
  }

  /** The reader row's files are in order and readable. */
  lemma ReaderReadable()
    ensures Ascending(ReaderFiles)
    ensures forall i | 0 <= i < |ReaderFiles| :: Readable(ReaderFiles[i])
  {
    var f := ReaderFiles;
    RowBelow('1', '2', 40);
    RowBelow('2', '3', 40);
    RowBelow('3', '4', 40);
    AscendingFour(f);
    RowReadable('1', 40, "c:\\file 1.txt");
    RowReadable('2', 40, "c:\\file 2.txt");
    RowReadable('3', 40, "c:\\file 3.txt");
    RowReadable('4', 40, "c:\\file 4.txt");
  }

  /** The reader row: the set read from the buffer and the set built from its files miss nothing of each other. */
  lemma ReaderRow()
    ensures Missing(Files(ReadLines([], Lines(ReaderBuffer))), AddFiles([], ReaderFiles)) == []
    ensures Missing(Files(AddFiles([], ReaderFiles)), ReadLines([], Lines(ReaderBuffer))) == []
  {
    ReaderLines();
    ReaderReadable();
    RoundTrip(ReaderFiles);
    assert [] + ReaderFiles == ReaderFiles;
    AddAscending([], ReaderFiles);
    MissingSelf(ReaderFiles);
  }

  /** The round-trip row: writing the set read from the buffer gives the buffer back. */
  lemma RoundTripRow()
    ensures Serialize(ReadLines([], Lines(ReaderBuffer))) == ReaderBuffer
  {
    ReaderLines();
    ReaderReadable();
    RoundTrip(ReaderFiles);
  }

  class BackupSet {
    /** hash_to_filename_map_, in ascending hash order. */
    var entries: seq<Entry>

    predicate Valid()
      reads this
    {
      Ascending(entries)
    }

    constructor ()
      ensures entries == [] && Valid()
    {
      entries := [];
    }

    /** addFile */
    method AddFile(sha1: string, filename: string)
      requires Valid()
      modifies this
      ensures entries == Insert(old(entries), sha1, filename) && Valid()
    {
      entries := Insert(entries, sha1, filename);
    }

    /** getMissingFiles: the filenames of rhs whose hash this set lacks, in rhs's hash order. */
    method GetMissingFiles(rhs: BackupSet) returns (missing: seq<string>)
      ensures missing == Missing(Files(entries), rhs.entries)
    {
      missing := [];
      for i := 0 to |rhs.entries|
        invariant missing == Missing(Files(entries), rhs.entries[..i])
      {
        var pair := rhs.entries[i];
        assert rhs.entries[..i + 1][..i] == rhs.entries[..i];
        if pair.0 !in Files(entries) {
          missing := missing + [pair.1];
        }
      }
      assert rhs.entries[..|rhs.entries|] == rhs.entries;
    }
  }

  /** BackupSetReader: reads lines into the set it was made for. */
  class BackupSetReader {
    const backupSet: BackupSet

    constructor (backupSet: BackupSet)
      ensures this.backupSet == backupSet
    {
      this.backupSet := backupSet;
    }

    /** read: the getline loop over the buffer. */
    method Read(buffer: string)
      requires backupSet.Valid()
      modifies backupSet
      ensures backupSet.entries == ReadLines(old(backupSet.entries), Lines(buffer)) && backupSet.Valid()
    {
      var lines := Lines(buffer);
      for i := 0 to |lines|
        invariant backupSet.Valid()
        invariant ReadLines(backupSet.entries, lines[i..]) == ReadLines(old(backupSet.entries), lines)
      {
        assert lines[i..][1..] == lines[i + 1..];
        var parsed := ParseLine(lines[i]);
        if parsed.Some? {
          backupSet.AddFile(parsed.value.0, parsed.value.1);
        }
      }
    }
  }

  /** BackupSetWriter: writes the set it was made for. */
  class BackupSetWriter {
    const backupSet: BackupSet

    constructor (backupSet: BackupSet)
      ensures this.backupSet == backupSet
    {
      this.backupSet := backupSet;
    }

    /** write: one line per entry, in ascending hash order. */
    method Write() returns (out: string)
      ensures out == Serialize(backupSet.entries)
    {
      out := "";
      for i := 0 to |backupSet.entries|
        invariant out == Serialize(backupSet.entries[..i])
      {
        var pair := backupSet.entries[i];
        assert backupSet.entries[..i + 1][..i] == backupSet.entries[..i];
        out := out + pair.0 + " " + pair.1 + "\n";
      }
      assert backupSet.entries[..|backupSet.entries|] == backupSet.entries;
    }
  }
}
