/** The customer-name intake of the mechanic-assist tool: `validate_name`,
    which accepts a name when enough of it is left after stripping the
    surrounding whitespace, and `get_name`, which keeps reading lines until
    one is accepted. The interactive `input()` is replaced by a supplied
    sequence of lines. */
module Run {
  import opened PyStrip

  /** The fewest characters a name must keep after stripping: the source
      rejects when the stripped length is `< 3`, although its docstring and
      its message speak of "at least 2". */
  const MinStrippedLength: nat := 3

  /** The two rejection messages `validate_name` can print. The second
      belongs to the `except ValueError` branch, which `CheckName` does not
      model: `str(name)` cannot raise on a string. */
  datatype Rejection =
    | TooShort             // "Must input name at least 2 letters"
    | IrregularCharacters  // "Must input name with regular characters"

  datatype Verdict = Accepted | Rejected(reason: Rejection)

  /** `validate_name` with the reason it reports. Converting a string with
      `str` cannot raise, so the `ValueError` branch has no counterpart here
      and the verdict depends on the stripped length alone. */
  function CheckName(name: string): (v: Verdict)
    ensures v == Accepted || v == Rejected(TooShort)
    ensures v == Accepted <==> |Strip(name)| >= MinStrippedLength
  {
    if |Strip(name)| < MinStrippedLength then Rejected(TooShort) else Accepted
  }

  /** `validate_name(name)`: true exactly when the name is accepted. */
  function ValidateName(name: string): (ok: bool)
    ensures ok ==> |name| >= MinStrippedLength
    ensures AllSpace(name) ==> !ok
  {
    StripEmpty(name);
    CheckName(name).Accepted?
  }

  /** A description of acceptance that does not mention stripping: some
      non-space character is followed, two or more positions later, by
      another non-space character. */
  ghost predicate HasWideSpan(s: string) {
    exists i, j :: 0 <= i && i + 2 <= j < |s| && !IsSpace(s[i]) && !IsSpace(s[j])
  }

  /** A name is accepted exactly when it has a wide span of non-space
      characters (both directions). */
  lemma ValidateNameCharacterized(name: string)
    ensures ValidateName(name) <==> HasWideSpan(name)
  {
    StripSlice(name);
    var r := Strip(name);
    var lo := Lead(name);
    var hi := End(name);
    if ValidateName(name) {
      assert name[lo] == r[0] && name[hi - 1] == r[|r| - 1];
      assert !IsSpace(name[lo]) && !IsSpace(name[hi - 1]);
    }
    if HasWideSpan(name) {
      var i, j :| 0 <= i && i + 2 <= j < |name| && !IsSpace(name[i]) && !IsSpace(name[j]);
      if i < lo || hi <= i { OutsideIsSpace(name, lo, hi, i); assert false; }
      if j < lo || hi <= j { OutsideIsSpace(name, lo, hi, j); assert false; }
      assert |r| >= j - i + 1;
    }
  }

  /** Surrounding whitespace never changes the verdict. */
  lemma PaddingKeepsVerdict(w1: string, name: string, w2: string)
    requires AllSpace(w1) && AllSpace(w2)
    ensures ValidateName(w1 + name + w2) == ValidateName(name)
  {
    StripIgnoresPadding(w1, name, w2);
  }

  /** Interior whitespace is kept and counts towards the length: a name
      that begins and ends with a non-space character and has anything at
      all between them is accepted. */
  lemma InteriorSpaceCounts(first: char, middle: string, last: char)
    requires !IsSpace(first) && !IsSpace(last) && |middle| >= 1
    ensures ValidateName([first] + middle + [last])
  {
    var s := [first] + middle + [last];
    assert s[0] == first && s[|s| - 1] == last;
    TrimmedIsFixed(s);
  }

  /** Empty and all-whitespace names are rejected. */
  lemma BlankNamesRejected()
    ensures !ValidateName("") && !ValidateName("   ") && !ValidateName("\t\n")
  {
    assert AllSpace("");
    assert AllSpace("   ");
    assert AllSpace("\t\n");
  }

  /** Two characters, padded or not, are rejected: the comparison is
      `< 3`, not the "at least 2" the message announces. */
  lemma TwoLetterNamesRejected()
    ensures !ValidateName("ab") && !ValidateName("  ab  ")
  {
    assert |"ab"| < MinStrippedLength;
    PaddingKeepsVerdict("  ", "ab", "  ");
    assert "  ab  " == "  " + "ab" + "  ";
  }

  /** Three characters are accepted, interior space included. */
  lemma ShortestAcceptedNames()
    ensures ValidateName("abc") && ValidateName("a b")
  {
    InteriorSpaceCounts('a', "b", 'c');
    assert "abc" == ['a'] + "b" + ['c'];
    InteriorSpaceCounts('a', " ", 'b');
    assert "a b" == ['a'] + " " + ['b'];
  }

  /** Any non-space characters count, not only letters: digits and
      punctuation are accepted although the message speaks of "letters". */
  lemma NonLetterNamesAccepted()
    ensures ValidateName("123") && ValidateName("a.b")
  {
    InteriorSpaceCounts('1', "2", '3');
    assert "123" == ['1'] + "2" + ['3'];
    InteriorSpaceCounts('a', ".", 'b');
    assert "a.b" == ['a'] + "." + ['b'];
  }

  /** A padded three-letter name is accepted. */
  lemma PaddedNameAccepted()
    ensures ValidateName(" Bob ")
  {
    var name := " Bob ";
    assert !IsSpace(name[1]) && !IsSpace(name[3]);
    ValidateNameCharacterized(name);
  }

  /** Index of the first line `validate_name` accepts, or `|lines|` when
      it accepts none: the line on which `get_name` stops. */
  function FirstAccepted(lines: seq<string>): (k: nat)
    ensures k <= |lines|
    ensures forall j :: 0 <= j < k ==> !ValidateName(lines[j])
    ensures k < |lines| ==> ValidateName(lines[k])
    decreases |lines|
  {
    if lines == [] || ValidateName(lines[0]) then 0
    else 1 + FirstAccepted(lines[1..])
  }

  /** Lines the operator typed that were rejected are simply read past. */
  lemma {:induction false} RejectedLinesSkipped(rejected: seq<string>, lines: seq<string>)
    requires forall j :: 0 <= j < |rejected| ==> !ValidateName(rejected[j])
    ensures FirstAccepted(rejected + lines) == |rejected| + FirstAccepted(lines)
    decreases |rejected|
  {
    if rejected != [] {
      assert (rejected + lines)[1..] == rejected[1..] + lines;
      RejectedLinesSkipped(rejected[1..], lines);
    } else {
      assert rejected + lines == lines;
    }
  }

  /** What one call of `get_name` yields: the accepted line and how many
      lines it read to get it, or the input ran out first. */
  datatype NameRead = Read(name: string, consumed: nat) | OutOfInput

  /** `get_name()`: reads lines until `validate_name` accepts one and
      returns that line exactly as typed, neither stripped nor re-cased. */
  method GetName(lines: seq<string>) returns (r: NameRead)
    ensures r.Read? ==> 1 <= r.consumed <= |lines| && r.name == lines[r.consumed - 1]
    ensures r.Read? ==> ValidateName(r.name)
    ensures r.Read? ==> forall j :: 0 <= j < |lines| && j < r.consumed - 1 ==> !ValidateName(lines[j])
    ensures r.OutOfInput? <==> forall j :: 0 <= j < |lines| ==> !ValidateName(lines[j])
  {
    r := OutOfInput;
    var i := 0;
    while i < |lines|
      invariant 0 <= i <= |lines|
      invariant forall j :: 0 <= j < i ==> !ValidateName(lines[j])
    {
      var name := lines[i];
      i := i + 1;
      if ValidateName(name) {
        r := Read(name, i);
        break;
      }
    }
  }

  /** `GetName`'s postcondition leaves room for one result only, the one
      `FirstAccepted` describes. */
  lemma GetNameResultDetermined(lines: seq<string>, r: NameRead)
    requires r.Read? ==> 1 <= r.consumed <= |lines| && r.name == lines[r.consumed - 1]
    requires r.Read? ==> ValidateName(r.name)
    requires r.Read? ==> forall j :: 0 <= j < |lines| && j < r.consumed - 1 ==> !ValidateName(lines[j])
    requires r.OutOfInput? <==> forall j :: 0 <= j < |lines| ==> !ValidateName(lines[j])
    ensures r.Read? <==> FirstAccepted(lines) < |lines|
    ensures r.Read? ==> r == Read(lines[FirstAccepted(lines)], FirstAccepted(lines) + 1)
  {
    var k := FirstAccepted(lines);
    if r.Read? {
      // an earlier stop contradicts the rejected prefix, a later one the
      // acceptance of the line returned
      if k < r.consumed - 1 { assert false; }
      if r.consumed - 1 < k { assert false; }
    } else if k < |lines| {
      assert false;
    }
  }

  /** On `["", "ab", " Bob "]` the retry loop stops at index 2, on a line
      that differs from its stripped form. */
  lemma GetNameKeepsRawLine()
    ensures FirstAccepted(["", "ab", " Bob "]) == 2
    ensures Strip(" Bob ") != " Bob "
  {
    BlankNamesRejected();
    TwoLetterNamesRejected();
    PaddedNameAccepted();
    var lines := ["", "ab", " Bob "];
    assert lines == ["", "ab"] + [" Bob "];
    RejectedLinesSkipped(["", "ab"], [" Bob "]);
  }

  /** `get_name` hands back the accepted line with its whitespace intact:
      after two rejected entries it returns " Bob " itself, not its
      stripped form, and never reads the line after it. */
  method GetNameReturnsRawLine() returns (r: NameRead)
    ensures r == Read(" Bob ", 3)
    ensures r.name != Strip(r.name)
  {
    var lines := ["", "ab", " Bob ", "Alice"];
    r := GetName(lines);
    BlankNamesRejected();
    TwoLetterNamesRejected();
    PaddedNameAccepted();
    assert lines == ["", "ab"] + [" Bob ", "Alice"];
    RejectedLinesSkipped(["", "ab"], [" Bob ", "Alice"]);
    GetNameResultDetermined(lines, r);
    GetNameKeepsRawLine();
  }
}
