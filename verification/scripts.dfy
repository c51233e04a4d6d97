/**
 * `Utils.readScripts(scriptsPath)`: every file of the scripts directory whose name
 * ends in `.js`, keyed by file name, with the file's text as value.  The file system
 * is given as inputs: the names `readdirSync` lists, in its order (`None` when the
 * directory does not exist), and `read(name)`, the text of that file
 * (`readFileSync(...).toString()`).
 */
module Scripts {
  import opened Wrappers
  import opened JsObject

  /** `readdirSync(scriptsPath).filter(file => file.endsWith('.js'))` */
  function JsFiles(names: seq<string>): (files: seq<string>)
    ensures forall f :: f in files <==> f in names && EndsWith(f, ".js")
    ensures |files| <= |names|
    decreases |names|
  {
    if names == [] then []
    else (if EndsWith(names[0], ".js") then [names[0]] else []) + JsFiles(names[1..])
  }

  /** The filter keeps the listing order: filtering two listings in turn is filtering their concatenation. */
  lemma {:induction false} JsFilesAppend(a: seq<string>, b: seq<string>)
    ensures JsFiles(a + b) == JsFiles(a) + JsFiles(b)
    decreases |a|
  {
    if a == [] {
      assert a + b == b;
    } else {
      assert (a + b)[0] == a[0] && (a + b)[1..] == a[1..] + b;
      JsFilesAppend(a[1..], b);
    }
  }

  /** A `.js` file name is never `__proto__`. */
  lemma JsNotProto(name: string)
    requires EndsWith(name, ".js")
    ensures name != ProtoKey
  {
    assert ProtoKey[|ProtoKey| - 3..] == "o__";
  }

  /** The assignments `scripts[scriptFile] = content` of the loop, in order. */
  function Reads(files: seq<string>, read: string -> string): (ps: seq<(string, string)>)
    ensures |ps| == |files|
    ensures forall i :: 0 <= i < |ps| ==> ps[i] == (files[i], read(files[i]))
  {
    seq(|files|, i requires 0 <= i < |files| => (files[i], read(files[i])))
  }

  /** The object `readScripts` resolves to. */
  function ScriptTable(names: seq<string>, read: string -> string): (scripts: Dict<string>)
    ensures scripts.Valid()
  {
    PutAll(Empty(), Reads(JsFiles(names), read))
  }

  /**
   * `Utils.readScripts`, with the `for` loop that fills `scripts`; `None` is the ENOENT
   * error `readdirSync` throws for a missing directory, which nothing catches.
   */
  method ReadScripts(listing: Option<seq<string>>, read: string -> string) returns (result: Option<Dict<string>>)
    ensures listing.None? ==> result.None?
    ensures listing.Some? ==> result == Some(ScriptTable(listing.value, read))
  {
    if listing.None? {
      return None;
    }
    var names := listing.value;
    var scriptFiles := JsFiles(names);
    var scripts := Empty();
    for i := 0 to |scriptFiles|
      invariant scripts.Valid()
      invariant PutAll(scripts, Reads(scriptFiles, read)[i..]) == ScriptTable(names, read)
    {
      var content := read(scriptFiles[i]);
      PutAllFrom(scripts, Reads(scriptFiles, read), i);
      scripts := Put(scripts, scriptFiles[i], content);
    }
    result := Some(scripts);
  }

  /** The keys are exactly the listed `.js` names, each holding that file's text. */
  lemma ScriptEntries(names: seq<string>, read: string -> string, name: string)
    ensures name in ScriptTable(names, read).values <==> name in names && EndsWith(name, ".js")
    ensures name in ScriptTable(names, read).values ==> ScriptTable(names, read).Get(name) == Some(read(name))
  {
    var files := JsFiles(names);
    var ps := Reads(files, read);
    PutAllMember(Empty(), ps, name);
    if name in files {
      JsNotProto(name);
      var i :| 0 <= i < |files| && files[i] == name;
      assert ps[i].0 == name;
      var j := LastIndex(files, i);
      PutAllLast(Empty(), ps, name, j);
    }
  }

  /** Some position holding the name of position `i` is not followed by that name again. */
  lemma {:induction false} LastIndex(files: seq<string>, i: nat) returns (j: nat)
    requires i < |files|
    ensures i <= j < |files| && files[j] == files[i]
    ensures forall l :: j < l < |files| ==> files[l] != files[i]
    decreases |files| - i
  {
    if l :| i < l < |files| && files[l] == files[i] {
      j := LastIndex(files, l);
    } else {
      j := i;
    }
  }

  /**
   * A directory lists every name once, so `Object.entries(scripts)` yields the scripts in
   * the order `readdirSync` listed them.
   */
  lemma ScriptOrder(names: seq<string>, read: string -> string)
    requires forall i, j :: 0 <= i < j < |names| ==> names[i] != names[j]
    ensures ScriptTable(names, read).keys == JsFiles(names)
  {
    JsFilesDistinct(names);
    ReadsFresh(JsFiles(names), read);
    PutAllFreshKeys(Empty(), Reads(JsFiles(names), read));
  }

  lemma ReadsFresh(files: seq<string>, read: string -> string)
    requires forall i, j :: 0 <= i < j < |files| ==> files[i] != files[j]
    requires forall f :: f in files ==> EndsWith(f, ".js")
    ensures FreshKeys(Empty(), Reads(files, read))
    ensures Names(Reads(files, read)) == files
  {
    var ps := Reads(files, read);
    forall i, j | 0 <= i < j < |ps| ensures ps[i].0 != ps[j].0 {
      assert ps[i].0 == files[i] && ps[j].0 == files[j];
    }
    forall i | 0 <= i < |ps| ensures ps[i].0 != ProtoKey {
      assert files[i] in files;
      JsNotProto(files[i]);
    }
  }

  /** Filtering keeps the names distinct. */
  lemma {:induction false} JsFilesDistinct(names: seq<string>)
    requires forall i, j :: 0 <= i < j < |names| ==> names[i] != names[j]
    ensures forall i, j :: 0 <= i < j < |JsFiles(names)| ==> JsFiles(names)[i] != JsFiles(names)[j]
    decreases |names|
  {
    if names != [] {
      var rest := names[1..];
      forall i, j | 0 <= i < j < |rest| ensures rest[i] != rest[j] {
        assert rest[i] == names[i + 1] && rest[j] == names[j + 1];
      }
      JsFilesDistinct(rest);
      assert names[0] !in rest by {
        forall l | 0 <= l < |rest| ensures rest[l] != names[0] {
          assert rest[l] == names[l + 1];
        }
      }
    }
  }
}
