/** The string handling the grid relies on: UTF-8 byte length, Rust's
    `str::lines`, and the plain comma split of `Table::from` (src/table.rs:75-97)
    with the comma join that `save` performs (src/document.rs:364-372). */
module Text {

  /** Bytes needed to encode one Unicode scalar value in UTF-8. */
  function CharUtf8Len(c: char): nat
  {
    if c as int < 0x80 then 1
    else if c as int < 0x800 then 2
    else if c as int < 0x1_0000 then 3
    else 4
  }

  /** `String::len`: the UTF-8 byte length of a text. */
  function Utf8Len(s: string): nat
  {
    if s == [] then 0 else Utf8Len(s[..|s| - 1]) + CharUtf8Len(s[|s| - 1])
  }

  lemma {:induction false} Utf8LenAtLeastLength(s: string)
    ensures Utf8Len(s) >= |s|
    ensures (forall i :: 0 <= i < |s| ==> s[i] as int < 0x80) ==> Utf8Len(s) == |s|
  {
    if s != [] {
      Utf8LenAtLeastLength(s[..|s| - 1]);
    }
  }

  /** `String::pop`, discarding the popped character: the last character
      goes, and an empty text stays empty. */
  function DropLast(s: string): string
  {
    if s == [] then [] else s[..|s| - 1]
  }

  /** Popping removes exactly the last character: putting it back restores the text. */
  lemma DropLastRestores(s: string)
    ensures s == [] ==> DropLast(s) == []
    ensures s != [] ==> DropLast(s) + [s[|s| - 1]] == s
  {
  }

  function IndexOf(s: string, c: char): (k: nat)
    ensures k <= |s|
    ensures forall i :: 0 <= i < k ==> s[i] != c
    ensures k < |s| ==> s[k] == c
  {
    if s == [] then 0 else if s[0] == c then 0 else 1 + IndexOf(s[1..], c)
  }

  /** A carriage return is removed only when it ends a line that a newline ended. */
  function StripCR(s: string): string
  {
    if s != [] && s[|s| - 1] == '\r' then s[..|s| - 1] else s
  }

  /** At most one trailing carriage return goes, and nothing else changes. */
  lemma StripCRPrefix(s: string)
    ensures |StripCR(s)| <= |s| <= |StripCR(s)| + 1 && StripCR(s) == s[..|StripCR(s)|]
    ensures |StripCR(s)| < |s| <==> s != [] && s[|s| - 1] == '\r'
  {
  }

  /** `str::lines`: split at each newline, drop a carriage return just before it,
      and produce no empty line for a final line ending. */
  function Lines(text: string): (ls: seq<string>)
    ensures forall i :: 0 <= i < |ls| ==> '\n' !in ls[i]
    ensures text == [] <==> ls == []
    decreases |text|
  {
    if text == [] then []
    else
      var k := IndexOf(text, '\n');
      if k == |text| then [text]
      else [StripCR(text[..k])] + Lines(text[k + 1..])
  }

  /** The fields a left-to-right scan of `s` has closed off with a comma. */
  function Completed(s: string): seq<string>
  {
    if s == [] then []
    else if s[|s| - 1] == ',' then Completed(s[..|s| - 1]) + [Pending(s[..|s| - 1])]
    else Completed(s[..|s| - 1])
  }

  /** The text after the last comma of `s`: the field still being scanned. */
  function Pending(s: string): (r: string)
    ensures ',' !in r
  {
    if s == [] then []
    else if s[|s| - 1] == ',' then []
    else Pending(s[..|s| - 1]) + [s[|s| - 1]]
  }

  /** The fields of one line: `Table::from` appends a comma to the line and emits
      a field at every comma. */
  function Fields(line: string): seq<string>
  {
    Completed(line + [','])
  }

  /** Every field followed by a comma. */
  function Terminated(fields: seq<string>): string
  {
    if fields == [] then []
    else Terminated(fields[..|fields| - 1]) + fields[|fields| - 1] + [',']
  }

  /** The fields joined by single commas. */
  function Join(fields: seq<string>): string
  {
    DropLast(Terminated(fields))
  }

  lemma {:induction false} FieldsSplitLast(line: string)
    ensures Fields(line) == Completed(line) + [Pending(line)]
  {
    assert (line + [','])[..|line|] == line;
  }

  lemma {:induction false} CompletedThenPending(s: string)
    ensures Terminated(Completed(s)) + Pending(s) == s
  {
    if s != [] {
      var init, c := s[..|s| - 1], s[|s| - 1];
      CompletedThenPending(init);
      assert s == init + [c];
      ScanStep(init, c);
    }
  }

  /** One more character extends the closed fields and the pending one by
      exactly that character. */
  lemma ScanStep(init: string, c: char)
    ensures Terminated(Completed(init + [c])) + Pending(init + [c]) == Terminated(Completed(init)) + Pending(init) + [c]
  {
    var s := init + [c];
    assert s[..|s| - 1] == init;
    if c == ',' {
      var fs := Completed(init) + [Pending(init)];
      assert fs[..|fs| - 1] == Completed(init);
    }
  }

  /** The number of commas in a text. */
  function Commas(s: string): nat
  {
    if s == [] then 0 else Commas(s[..|s| - 1]) + (if s[|s| - 1] == ',' then 1 else 0)
  }

  lemma {:induction false} CompletedCount(s: string)
    ensures |Completed(s)| == Commas(s)
  {
    if s != [] {
      CompletedCount(s[..|s| - 1]);
    }
  }

  /** A line with `n` commas has `n + 1` fields, so `Table::from` numbers its
      cells 1 to `n + 1`. */
  lemma FieldsCount(line: string)
    ensures |Fields(line)| == Commas(line) + 1
  {
    CompletedCount(line + [',']);
    assert (line + [','])[..|line|] == line;
  }

  /** Splitting a line at its commas and joining the fields again gives back the line. */
  lemma {:induction false} JoinFields(line: string)
    ensures Fields(line) != []
    ensures Join(Fields(line)) == line
  {
    FieldsSplitLast(line);
    var fs := Fields(line);
    assert fs[..|fs| - 1] == Completed(line);
    CompletedThenPending(line);
    assert Terminated(fs) == line + [','];
    assert (line + [','])[..|line|] == line;
  }

  lemma {:induction false} CompletedHasNoComma(s: string)
    ensures forall i :: 0 <= i < |Completed(s)| ==> ',' !in Completed(s)[i]
  {
    if s != [] {
      CompletedHasNoComma(s[..|s| - 1]);
    }
  }

  /** No field of a line contains a comma. */
  lemma {:induction false} FieldsHaveNoComma(line: string)
    ensures forall i :: 0 <= i < |Fields(line)| ==> ',' !in Fields(line)[i]
  {
    CompletedHasNoComma(line + [',']);
  }

  /** Scanning a comma-free text after a terminated prefix adds no field and
      leaves that text pending. */
  lemma {:induction false} ScanCommaFree(fields: seq<string>, f: string)
    requires Completed(Terminated(fields)) == fields && Pending(Terminated(fields)) == []
    requires ',' !in f
    ensures Completed(Terminated(fields) + f) == fields
    ensures Pending(Terminated(fields) + f) == f
  {
    if f != [] {
      var init := f[..|f| - 1];
      assert ',' !in init by {
        forall i | 0 <= i < |init| ensures init[i] != ',' {
          assert init[i] == f[i];
        }
      }
      ScanCommaFree(fields, init);
      var s := Terminated(fields) + f;
      assert s[..|s| - 1] == Terminated(fields) + init;
      assert s[|s| - 1] == f[|f| - 1];
      assert init + [f[|f| - 1]] == f;
    } else {
      assert Terminated(fields) + f == Terminated(fields);
    }
  }

  lemma {:induction false} TerminatedScan(fields: seq<string>)
    requires forall i :: 0 <= i < |fields| ==> ',' !in fields[i]
    ensures Completed(Terminated(fields)) == fields
    ensures Pending(Terminated(fields)) == []
  {
    if fields != [] {
      var init := fields[..|fields| - 1];
      var f := fields[|fields| - 1];
      TerminatedScan(init);
      ScanCommaFree(init, f);
      var s := Terminated(init) + f + [','];
      assert s[..|s| - 1] == Terminated(init) + f;
      assert init + [f] == fields;
    }
  }

  /** Joining comma-free fields and splitting the line again gives back the fields. */
  lemma {:induction false} FieldsOfJoin(fields: seq<string>)
    requires fields != []
    requires forall i :: 0 <= i < |fields| ==> ',' !in fields[i]
    ensures Fields(Join(fields)) == fields
  {
    var init := fields[..|fields| - 1];
    var f := fields[|fields| - 1];
    TerminatedScan(init);
    ScanCommaFree(init, f);
    var t := Terminated(init) + f + [','];
    assert Terminated(fields) == t;
    assert Join(fields) == Terminated(init) + f;
    FieldsSplitLast(Join(fields));
    assert init + [f] == fields;
  }

  predicate EndsWith(s: string, suffix: string)
  {
    |suffix| <= |s| && s[|s| - |suffix|..] == suffix
  }

  /** `str::rfind` for one character: the index of its last occurrence. */
  function LastIndexOf(s: string, c: char): (r: int)
    ensures -1 <= r < |s|
    ensures r >= 0 ==> s[r] == c
    ensures forall i :: r < i < |s| ==> s[i] != c
  {
    if s == [] then -1
    else if s[|s| - 1] == c then |s| - 1
    else LastIndexOf(s[..|s| - 1], c)
  }
}
