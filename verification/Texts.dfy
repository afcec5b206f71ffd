/** JavaScript strings, and the string and path operations that several services share. */
module Texts {
  /** A UTF-16 code unit; JavaScript strings are sequences of them. */
  type CodeUnit = c: int | 0 <= c < 0x10000
  type Text = seq<CodeUnit>

  /** What `trim` strips: the white space and line terminators of section 12 of ECMA-262, 14th edition. */
  predicate IsSpace(c: CodeUnit) {
    || 9 <= c <= 13 || c == 0x20 || c == 0xA0 || c == 0x1680 || 0x2000 <= c <= 0x200A
    || c == 0x2028 || c == 0x2029 || c == 0x202F || c == 0x205F || c == 0x3000 || c == 0xFEFF
  }

  function Trim(text: Text): (trimmed: Text)
    ensures trimmed == [] || (!IsSpace(trimmed[0]) && !IsSpace(trimmed[|trimmed| - 1]))
    ensures forall c :: c in text && !IsSpace(c) ==> c in trimmed
  {
    if text == [] then []
    else if IsSpace(text[0]) then
      assert forall c :: c in text ==> c == text[0] || c in text[1..];
      Trim(text[1..])
    else if IsSpace(text[|text| - 1]) then
      assert forall c :: c in text ==> c == text[|text| - 1] || c in text[..|text| - 1];
      Trim(text[..|text| - 1])
    else text
  }

  /** `text.includes(part)`. */
  predicate Includes(text: Text, part: Text) {
    part <= text || (text != [] && Includes(text[1..], part))
  }

  const SLASH: CodeUnit := 0x2F

  function AfterLastSlash(path: Text): (name: Text)
    ensures SLASH !in name
  {
    if path == [] || path[|path| - 1] == SLASH then []
    else AfterLastSlash(path[..|path| - 1]) + [path[|path| - 1]]
  }

  /** `path.basename`: trailing slashes do not count. */
  function Basename(path: Text): (name: Text)
    ensures SLASH !in name
  {
    if path != [] && path[|path| - 1] == SLASH then Basename(path[..|path| - 1]) else AfterLastSlash(path)
  }

  lemma {:induction false} NameAfterLastSlash(directory: Text, name: Text)
    requires SLASH !in name
    ensures AfterLastSlash(directory + [SLASH] + name) == name
  {
    var path := directory + [SLASH] + name;
    if name == [] {
      assert path[|path| - 1] == SLASH;
    } else {
      var front := name[..|name| - 1];
      assert path[..|path| - 1] == directory + [SLASH] + front;
      assert path[|path| - 1] == name[|name| - 1] && name[|name| - 1] in name;
      NameAfterLastSlash(directory, front);
    }
  }

  /** The name of a file in a directory is its base name. */
  lemma BasenameOfFile(directory: Text, name: Text)
    requires name != [] && SLASH !in name
    ensures Basename(directory + [SLASH] + name) == name
  {
    assert name[|name| - 1] in name;
    NameAfterLastSlash(directory, name);
  }

  /** The text from `i` to `j` is what is left without the white space at both ends. */
  ghost predicate IsTrimmedTo(text: Text, i: int, j: int) {
    && 0 <= i <= j <= |text|
    && (forall k :: 0 <= k < i ==> IsSpace(text[k]))
    && (forall k :: j <= k < |text| ==> IsSpace(text[k]))
    && (i < j ==> !IsSpace(text[i]) && !IsSpace(text[j - 1]))
  }

  lemma CutFront(text: Text, i: nat, j: nat)
    requires text != [] && IsSpace(text[0]) && IsTrimmedTo(text[1..], i, j)
    ensures IsTrimmedTo(text, i + 1, j + 1) && text[1..][i..j] == text[i + 1..j + 1]
  {
    forall k | 0 <= k < i + 1 ensures IsSpace(text[k]) {
      assert k > 0 ==> text[k] == text[1..][k - 1];
    }
    forall k | j + 1 <= k < |text| ensures IsSpace(text[k]) {
      assert text[k] == text[1..][k - 1];
    }
  }

  lemma CutBack(text: Text, i: nat, j: nat)
    requires text != [] && IsSpace(text[|text| - 1]) && IsTrimmedTo(text[..|text| - 1], i, j)
    ensures IsTrimmedTo(text, i, j) && text[..|text| - 1][i..j] == text[i..j]
  {
    forall k | j <= k < |text| ensures IsSpace(text[k]) {
      assert k < |text| - 1 ==> text[k] == text[..|text| - 1][k];
    }
  }

  /** Trimming cuts off white space at both ends and nothing else. */
  lemma {:induction false} TrimCutsEnds(text: Text) returns (i: nat, j: nat)
    ensures IsTrimmedTo(text, i, j) && Trim(text) == text[i..j]
  {
    if text == [] {
      i, j := 0, 0;
    } else if IsSpace(text[0]) {
      i, j := TrimCutsEnds(text[1..]);
      CutFront(text, i, j);
      i, j := i + 1, j + 1;
    } else if IsSpace(text[|text| - 1]) {
      i, j := TrimCutsEnds(text[..|text| - 1]);
      CutBack(text, i, j);
    } else {
      i, j := 0, |text|;
      assert text[0..|text|] == text;
    }
  }

  ghost predicate OccursAt(text: Text, part: Text, i: int) {
    0 <= i <= |text| - |part| && text[i..i + |part|] == part
  }

  lemma {:induction false} IncludesSomewhere(text: Text, part: Text)
    ensures Includes(text, part) <==> exists i :: OccursAt(text, part, i)
  {
    if part <= text {
      assert OccursAt(text, part, 0);
    } else if text == [] {
    } else {
      IncludesSomewhere(text[1..], part);
      if i :| OccursAt(text[1..], part, i) {
        assert text[1..][i..i + |part|] == text[i + 1..i + 1 + |part|];
        assert OccursAt(text, part, i + 1);
      }
      if i :| OccursAt(text, part, i) {
        assert i > 0;
        assert text[1..][i - 1..i - 1 + |part|] == text[i..i + |part|];
        assert OccursAt(text[1..], part, i - 1);
      }
    }
  }
}
