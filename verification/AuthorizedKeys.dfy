/** The registry of authorised public keys and the file it is saved to and loaded from. */
module AuthorizedKeys {
  import opened Base64
  import opened ByteOrder
  import opened Characters
  import opened TextLines
  import Utf8
  import opened Wrappers

  const NEWLINE: char := '\n'
  const CARRIAGE_RETURN: char := '\r'

  /** ed25519 public keys are 32 bytes. */
  const KEY_LENGTH: nat := 32

  /** A key as it stands in the file. */
  function KeyText(key: Bytes): string {
    Utf8.AsText(Encode(key))
  }

  /** The file for keys enumerated in some order: one encoded key per line. */
  function FileOf(order: seq<Bytes>): string {
    Unlines(KeyTexts(order), NEWLINE)
  }

  function KeyTexts(order: seq<Bytes>): seq<string> {
    seq(|order|, i requires 0 <= i < |order| => KeyText(order[i]))
  }

  predicate IsKeyLine(line: string) {
    var t := Trim(line);
    t != [] && t[0] != '#'
  }

  /** One more line; an undecodable one fails the whole load. */
  function WithLine(found: Option<set<Bytes>>, line: string): Option<set<Bytes>> {
    if found.None? || !IsKeyLine(line) then found
    else match Decode(Utf8.Encode(Trim(line)))
      case None => None
      case Some(key) => Some(if |key| == KEY_LENGTH then found.value + {key} else found.value)
  }

  /** The keys on the given lines. */
  function KeysOn(lines: seq<string>): Option<set<Bytes>> {
    if lines == [] then Some({}) else WithLine(KeysOn(lines[..|lines| - 1]), lines[|lines| - 1])
  }

  /** The file on disk; unreadable when it cannot be opened or is not UTF-8. */
  datatype KeyFile = Missing | Unreadable | Holding(text: string)

  /** What loading finds in a file; a missing file holds no keys. */
  function Loaded(file: KeyFile): Option<set<Bytes>> {
    match file
    case Missing => Some({})
    case Unreadable => None
    case Holding(text) => KeysOn(Lines(text, NEWLINE, CARRIAGE_RETURN))
  }

  ghost predicate Enumerates(order: seq<Bytes>, keys: set<Bytes>) {
    forall k :: k in keys <==> k in order
  }

  class Registry {
    var keys: set<Bytes>
    var file: KeyFile

    constructor (file: KeyFile)
      ensures keys == {} && this.file == file
    {
      keys := {};
      this.file := file;
    }

    /** Returns false when the file cannot be read or does not parse; the registry is then unchanged. */
    method Load() returns (ok: bool)
      modifies this`keys
      ensures ok <==> Loaded(file).Some?
      ensures keys == if ok then Loaded(file).value else old(keys)
    {
      var found: set<Bytes> := {};
      if file.Unreadable? {
        return false;
      }
      if file.Holding? {
        var lines := Lines(file.text, NEWLINE, CARRIAGE_RETURN);
        for i := 0 to |lines|
          invariant keys == old(keys)
          invariant KeysOn(lines[..i]) == Some(found)
        {
          KeysStep(lines, i, found);
          if IsKeyLine(lines[i]) {
            var decoded := Base64Decode(Utf8.Encode(Trim(lines[i])));
            if decoded.None? {
              KeysFail(lines, i + 1);
              return false;
            }
            if |decoded.value| == KEY_LENGTH {
              found := found + {decoded.value};
            }
          }
        }
        assert lines[..|lines|] == lines;
      }
      keys := found;
      return true;
    }

    /** Writes the keys in whatever order the hash set yields them. */
    method Save() returns (ghost order: seq<Bytes>)
      modifies this`file
      ensures Enumerates(order, keys) && |order| == |keys|
      ensures file == Holding(FileOf(order))
    {
      var content := "";
      var rest := keys;
      order := [];
      while rest != {}
        invariant rest <= keys && |order| + |rest| == |keys|
        invariant forall k :: k in keys <==> k in rest || k in order
        invariant content == FileOf(order)
        decreases rest
      {
        var key :| key in rest;
        var encoded := Base64Encode(key);
        content := content + Utf8.AsText(encoded) + [NEWLINE];
        FileSnoc(order, key);
        rest := rest - {key};
        order := order + [key];
      }
      file := Holding(content);
    }

    method AddKey(key: Bytes) returns (ghost order: seq<Bytes>)
      modifies this
      ensures keys == old(keys) + {key}
      ensures Enumerates(order, keys) && file == Holding(FileOf(order))
    {
      keys := keys + {key};
      order := Save();
    }
  }

  /** What one more line adds. */
  lemma {:induction false} KeysStep(lines: seq<string>, i: nat, found: set<Bytes>)
    requires i < |lines| && KeysOn(lines[..i]) == Some(found)
    ensures !IsKeyLine(lines[i]) ==> KeysOn(lines[..i + 1]) == Some(found)
    ensures IsKeyLine(lines[i]) ==>
      KeysOn(lines[..i + 1]) ==
      match Decode(Utf8.Encode(Trim(lines[i])))
      case None => None
      case Some(key) => Some(if |key| == KEY_LENGTH then found + {key} else found)
  {
    assert lines[..i + 1][..i] == lines[..i];
  }

  /** A comment: '#' is its first character that is not white space. */
  ghost predicate IsComment(line: string) {
    exists before: string, rest: string :: Blank(before) && line == before + "#" + rest
  }

  lemma CommentIsSkipped(line: string)
    requires Blank(line) || IsComment(line)
    ensures !IsKeyLine(line)
  {
    if Blank(line) {
      TrimmedAwayIffBlank(line);
    } else {
      var before: string, rest: string :| Blank(before) && line == before + "#" + rest;
      assert line == before + ("#" + rest);
      TrimStartOf(before, "#" + rest);
      var after := TrimEndSplits("#" + rest);
      assert Trim(line) != [] ==> Trim(line)[0] == ("#" + rest)[0];
    }
  }

  lemma KeysSnoc(lines: seq<string>, line: string)
    ensures KeysOn(lines + [line]) == WithLine(KeysOn(lines), line)
  {
    assert (lines + [line])[..|lines|] == lines;
  }

  /** Blank lines and comments can stand anywhere in the file: they change neither the keys nor the outcome. */
  lemma {:induction false} CommentsIgnored(above: seq<string>, line: string, below: seq<string>)
    requires Blank(line) || IsComment(line)
    ensures KeysOn(above + [line] + below) == KeysOn(above + below)
    decreases |below|
  {
    if below == [] {
      CommentIsSkipped(line);
      assert above + [line] + below == above + [line] && above + below == above;
      KeysSnoc(above, line);
    } else {
      var (front, last) := (below[..|below| - 1], below[|below| - 1]);
      CommentsIgnored(above, line, front);
      KeysSnoc(above + [line] + front, last);
      KeysSnoc(above + front, last);
      assert above + [line] + below == above + [line] + front + [last] && above + below == above + front + [last];
    }
  }

  lemma {:induction false} KeysFail(lines: seq<string>, n: nat)
    requires n <= |lines| && KeysOn(lines[..n]).None?
    ensures KeysOn(lines).None?
    decreases |lines| - n
  {
    if n == |lines| {
      assert lines[..n] == lines;
    } else {
      assert lines[..n + 1][..n] == lines[..n];
      KeysFail(lines, n + 1);
    }
  }

  lemma FileSnoc(order: seq<Bytes>, key: Bytes)
    ensures FileOf(order + [key]) == FileOf(order) + KeyText(key) + [NEWLINE]
  {
    assert KeyTexts(order + [key]) == KeyTexts(order) + [KeyText(key)];
    UnlinesConcat(KeyTexts(order), [KeyText(key)], NEWLINE);
    assert Unlines([KeyText(key)], NEWLINE) == KeyText(key) + [NEWLINE];
  }

  // ------------------------------------------------------------------------- load after save

  lemma {:induction false} EncodedRange(data: Bytes)
    ensures forall i :: 0 <= i < |Encode(data)| ==> 43 <= Encode(data)[i] <= 122
    decreases |data|
  {
    if data == [] {
    } else {
      EncodedRange(Tail(3, data));
    }
  }

  /** A key line has no character that lines, trimming or comments treat specially, and decodes to the key. */
  lemma {:induction false} KeyTextIsPlain(key: Bytes)
    ensures Trim(KeyText(key)) == KeyText(key) && Chomp(KeyText(key), CARRIAGE_RETURN) == KeyText(key)
    ensures NEWLINE !in KeyText(key)
    ensures IsKeyLine(KeyText(key)) <==> key != []
    ensures Decode(Utf8.Encode(KeyText(key))) == Some(key)
  {
    EncodedRange(key);
    assert Spaceless(KeyText(key));
    assert Encode(key) == [] <==> key == [];
    Utf8.AsciiEncodesItself(Encode(key));
    RoundTrip(key);
  }

  lemma LinesOfFile(order: seq<Bytes>)
    ensures Lines(FileOf(order), NEWLINE, CARRIAGE_RETURN) == KeyTexts(order)
  {
    var texts := KeyTexts(order);
    forall i | 0 <= i < |texts|
      ensures NEWLINE !in texts[i] && Chomp(texts[i], CARRIAGE_RETURN) == texts[i]
    {
      KeyTextIsPlain(order[i]);
    }
    LinesOfUnlines(texts, NEWLINE, CARRIAGE_RETURN);
  }

  /** The 32-byte keys among the first `n` of an enumeration. */
  function Kept(order: seq<Bytes>, n: nat): set<Bytes>
    requires n <= |order|
  {
    if n == 0 then {}
    else Kept(order, n - 1) + (if |order[n - 1]| == KEY_LENGTH then {order[n - 1]} else {})
  }

  /** The line of a key adds the key, if it has the right length. */
  lemma KeyLineAdds(found: set<Bytes>, key: Bytes)
    ensures WithLine(Some(found), KeyText(key)) == Some(found + if |key| == KEY_LENGTH then {key} else {})
  {
    KeyTextIsPlain(key);
    assert found + {} == found;
  }

  /** White space around a key does not matter. */
  lemma SpacesAroundKey(found: Option<set<Bytes>>, before: string, key: Bytes, after: string)
    requires key != [] && Blank(before) && Blank(after)
    ensures WithLine(found, before + KeyText(key) + after) == WithLine(found, KeyText(key))
  {
    KeyTextIsPlain(key);
    assert KeyText(key) != [] && Spaceless(KeyText(key)) by {
      EncodedRange(key);
    }
    TrimOf(before, KeyText(key), after);
  }

  lemma {:induction false} KeysOnEncoded(order: seq<Bytes>, lines: seq<string>, n: nat)
    requires lines == KeyTexts(order) && n <= |order|
    ensures KeysOn(lines[..n]) == Some(Kept(order, n))
    decreases n
  {
    if n == 0 {
    } else {
      KeysOnEncoded(order, lines, n - 1);
      assert lines[..n] == lines[..n - 1] + [KeyText(order[n - 1])];
      KeysSnoc(lines[..n - 1], KeyText(order[n - 1]));
      KeyLineAdds(Kept(order, n - 1), order[n - 1]);
    }
  }

  lemma {:induction false} KeptMembers(order: seq<Bytes>, n: nat, k: Bytes)
    requires n <= |order|
    ensures k in Kept(order, n) <==> |k| == KEY_LENGTH && k in order[..n]
  {
    if n == 0 {
    } else {
      KeptMembers(order, n - 1, k);
      assert order[..n] == order[..n - 1] + [order[n - 1]];
    }
  }

  /** For every key set and every iteration order, loading the saved file gives exactly the keys of 32 bytes. */
  lemma LoadAfterSave(keys: set<Bytes>, order: seq<Bytes>)
    requires Enumerates(order, keys)
    ensures Loaded(Holding(FileOf(order))) == Some(set k | k in keys && |k| == 32)
  {
    var lines := Lines(FileOf(order), NEWLINE, CARRIAGE_RETURN);
    LinesOfFile(order);
    KeysOnEncoded(order, lines, |order|);
    assert lines[..|order|] == lines && order[..|order|] == order;
    forall k
      ensures k in Kept(order, |order|) <==> k in keys && |k| == KEY_LENGTH
    {
      KeptMembers(order, |order|, k);
    }
    assert Kept(order, |order|) == set k | k in keys && |k| == KEY_LENGTH;
  }

  /** So the registry survives saving and loading exactly when every key has 32 bytes. */
  lemma {:induction false} SurvivesIffKeyLengths(keys: set<Bytes>, order: seq<Bytes>)
    requires Enumerates(order, keys)
    ensures Loaded(Holding(FileOf(order))) == Some(keys) <==> forall k :: k in keys ==> |k| == 32
  {
    LoadAfterSave(keys, order);
    var kept := set k | k in keys && |k| == KEY_LENGTH;
    if forall k :: k in keys ==> |k| == KEY_LENGTH {
      assert kept == keys;
    } else {
      var k :| k in keys && |k| != KEY_LENGTH;
      assert k !in kept;
    }
  }
}
