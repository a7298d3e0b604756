/**
 The checks the add and edit forms run before they call the table operation.
 A form is admitted when the name has a non-blank character after Python's
 `str.strip()`, all three numbers are non-negative, and the name does not
 clash with another row. Otherwise the form reports one of two errors: the
 fields are incomplete, or the name is taken.
 */
module Admission {
  import opened Table

  /** Python's `str.isspace()` for one character: the characters `str.strip()`
      removes when called without an argument. */
  predicate IsSpace(c: char)
    ensures IsSpace(c) ==> c as int <= 0x3000
    ensures ('a' <= c <= 'z' || 'A' <= c <= 'Z' || '0' <= c <= '9') ==> !IsSpace(c)
    ensures (c == ' ' || c == '\t' || c == '\n' || c == '\r') ==> IsSpace(c)
  {
    var n := c as int;
    n == 0x20 || 0x09 <= n <= 0x0D || 0x1C <= n <= 0x1F || n == 0x85 || n == 0xA0 ||
    n == 0x1680 || 0x2000 <= n <= 0x200A || n == 0x2028 || n == 0x2029 ||
    n == 0x202F || n == 0x205F || n == 0x3000
  }

  /** Drops the leading whitespace of `s`. */
  function TrimStart(s: string): (r: string)
    ensures |r| <= |s| && r == s[|s| - |r|..]
    ensures r == [] || !IsSpace(r[0])
    ensures forall i :: 0 <= i < |s| - |r| ==> IsSpace(s[i])
  {
    if s != [] && IsSpace(s[0]) then
      var rest := s[1..];
      var r := TrimStart(rest);
      assert rest[|rest| - |r|..] == s[|s| - |r|..];
      assert forall i :: 1 <= i < |s| - |r| ==> s[i] == rest[i - 1];
      r
    else s
  }

  /** Drops the trailing whitespace of `s`. */
  function TrimEnd(s: string): (r: string)
    ensures |r| <= |s| && r == s[..|r|]
    ensures r == [] || !IsSpace(r[|r| - 1])
    ensures forall i :: |r| <= i < |s| ==> IsSpace(s[i])
  {
    if s != [] && IsSpace(s[|s| - 1]) then TrimEnd(s[..|s| - 1]) else s
  }

  /** Every character of `s` is whitespace. */
  predicate AllSpace(s: string)
  {
    forall i :: 0 <= i < |s| ==> IsSpace(s[i])
  }

  /** Python's `s.strip()`: `s` is whitespace, then the result, then whitespace,
      and the result neither starts nor ends with whitespace. */
  function Strip(s: string): (r: string)
    ensures exists pre, post :: s == pre + r + post && AllSpace(pre) && AllSpace(post)
    ensures r == [] || (!IsSpace(r[0]) && !IsSpace(r[|r| - 1]))
  {
    StripShape(s);
    TrimEnd(TrimStart(s))
  }

  /** The two trims applied in turn leave whitespace on either side of the result. */
  lemma StripShape(s: string)
    ensures var r := TrimEnd(TrimStart(s));
            (exists pre, post :: s == pre + r + post && AllSpace(pre) && AllSpace(post)) &&
            (r == [] || (!IsSpace(r[0]) && !IsSpace(r[|r| - 1])))
  {
    TrimmedParts(s, TrimStart(s), TrimEnd(TrimStart(s)));
  }

  /** A suffix `a` of `s` after leading whitespace, and a prefix `r` of `a`
      before trailing whitespace, split `s` into whitespace, `r` and whitespace. */
  lemma TrimmedParts(s: string, a: string, r: string)
    requires |a| <= |s| && a == s[|s| - |a|..] && forall i :: 0 <= i < |s| - |a| ==> IsSpace(s[i])
    requires |r| <= |a| && r == a[..|r|] && forall i :: |r| <= i < |a| ==> IsSpace(a[i])
    requires (a == [] || !IsSpace(a[0])) && (r == [] || !IsSpace(r[|r| - 1]))
    ensures exists pre, post :: s == pre + r + post && AllSpace(pre) && AllSpace(post)
    ensures r == [] || (!IsSpace(r[0]) && !IsSpace(r[|r| - 1]))
  {
    var k := |r|;
    var pre, post := s[..|s| - |a|], a[k..];
    assert AllSpace(post) by {
      forall j | 0 <= j < |post| ensures IsSpace(post[j]) {
        assert post[j] == a[k + j];
      }
    }
    assert s == pre + a;
    assert a == r + post by {
      assert r == a[..k];
      assert a == a[..k] + a[k..];
    }
    assert s == pre + r + post;
    assert r != [] ==> r[0] == a[0];
  }

  /** `s.strip()` is the empty string exactly when every character of `s` is whitespace. */
  lemma StripEmptyIffBlank(s: string)
    ensures Strip(s) == [] <==> forall i :: 0 <= i < |s| ==> IsSpace(s[i])
  {
    var r := Strip(s);
    var pre, post :| s == pre + r + post && AllSpace(pre) && AllSpace(post);
    if r == [] {
      assert s == pre + post;
      forall i | 0 <= i < |s| ensures IsSpace(s[i]) {
        if i < |pre| {
          assert s[i] == pre[i];
        } else {
          assert s[i] == post[i - |pre|];
        }
      }
    } else {
      assert s[|pre|] == r[0];
    }
  }

  /** The name has a character that is not whitespace: `name.strip()` is truthy. */
  predicate HasVisibleChar(name: string)
  {
    exists i :: 0 <= i < |name| && !IsSpace(name[i])
  }

  /** What a submitted form leads to. */
  datatype Verdict =
    | Admitted         // the table operation is called
    | IncompleteFields // "Por favor complete todos los campos obligatorios (*) correctamente."
    | NameTaken        // "Ya existe un producto con ese nombre." / "Ya existe otro producto con ese nombre."

  /** The field checks shared by both forms: stripped name non-empty and the
      three numbers non-negative. */
  predicate FieldsComplete(name: string, stock: int, price: int, cost: int)
  {
    Strip(name) != [] && stock >= 0 && price >= 0 && cost >= 0
  }

  /** The field checks pass exactly when the name has a visible character and
      the three numbers are non-negative. */
  lemma FieldsCompleteIff(name: string, stock: int, price: int, cost: int)
    ensures FieldsComplete(name, stock, price, cost) <==>
              HasVisibleChar(name) && stock >= 0 && price >= 0 && cost >= 0
  {
    StripEmptyIffBlank(name);
  }

  /** The add form: field checks first, then the untrimmed name must not be in
      the name column. */
  function CheckAdd(t: seq<Row>, name: string, stock: int, price: int, cost: int): (v: Verdict)
    ensures v == Admitted <==>
              HasVisibleChar(name) && stock >= 0 && price >= 0 && cost >= 0 && !Contains(t, name)
    ensures v == NameTaken <==>
              HasVisibleChar(name) && stock >= 0 && price >= 0 && cost >= 0 && Contains(t, name)
  {
    FieldsCompleteIff(name, stock, price, cost);
    if !FieldsComplete(name, stock, price, cost) then IncompleteFields
    else if Contains(t, name) then NameTaken
    else Admitted
  }

  /** The edit form for the product `original`: field checks first, then the
      new name must be `original` itself or absent from the name column. */
  function CheckEdit(t: seq<Row>, original: string, name: string, stock: int, price: int, cost: int): (v: Verdict)
    ensures v == Admitted <==>
              HasVisibleChar(name) && stock >= 0 && price >= 0 && cost >= 0 &&
              (name == original || !Contains(t, name))
    ensures v == NameTaken <==>
              HasVisibleChar(name) && stock >= 0 && price >= 0 && cost >= 0 &&
              name != original && Contains(t, name)
  {
    FieldsCompleteIff(name, stock, price, cost);
    if !FieldsComplete(name, stock, price, cost) then IncompleteFields
    else if name == original || !Contains(t, name) then Admitted
    else NameTaken
  }
}
