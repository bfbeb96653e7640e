/** The registration rows of `src/App.jsx`: prepend on add, mark the newest row "Corroborado"
    after a REAL verdict, remove by index. `RemoveAt` is the `filter((_, i) => i !== idx)`
    that both App.jsx and DataTable.jsx use. */
module Rows {
  import opened Common

  /** `list.filter((_, i) => i !== idx)`. */
  function RemoveAt<T>(s: seq<T>, idx: int): (r: seq<T>)
    ensures 0 <= idx < |s| ==> r == s[..idx] + s[idx + 1..]
    ensures !(0 <= idx < |s|) ==> r == s
    decreases |s|
  {
    if |s| == 0 then []
    else
      var n := |s| - 1;
      RemoveAt(s[..n], idx) + (if n == idx then [] else [s[n]])
  }

  /** Removing keeps the order of the rest: the element at `j` moves to `j - 1` past `idx`. */
  lemma RemoveAtShift<T>(s: seq<T>, idx: int, j: int)
    requires 0 <= idx < |s| && 0 <= j < |s| && j != idx
    ensures |RemoveAt(s, idx)| == |s| - 1
    ensures RemoveAt(s, idx)[if j < idx then j else j - 1] == s[j]
  {
  }

  /** The characters `String.prototype.trim` strips: ECMAScript WhiteSpace and LineTerminator. */
  predicate IsJsSpace(c: char)
  {
    c == '\t' || c == '\n' || c == '\U{000B}' || c == '\U{000C}' || c == '\r' || c == ' '
    || c == '\U{00A0}' || c == '\U{1680}' || ('\U{2000}' <= c <= '\U{200A}')
    || c == '\U{2028}' || c == '\U{2029}' || c == '\U{202F}' || c == '\U{205F}'
    || c == '\U{3000}' || c == '\U{FEFF}'
  }

  function TrimStart(s: string): string
    decreases |s|
  {
    if |s| > 0 && IsJsSpace(s[0]) then TrimStart(s[1..]) else s
  }

  function TrimEnd(s: string): string
    decreases |s|
  {
    if |s| > 0 && IsJsSpace(s[|s| - 1]) then TrimEnd(s[..|s| - 1]) else s
  }

  function Trim(s: string): string
  {
    TrimEnd(TrimStart(s))
  }

  /** `trim` cuts `s` into whitespace, the result, whitespace, and the result neither starts nor
      ends with whitespace. */
  lemma {:induction false} TrimSpec(s: string)
    ensures exists a, b :: (0 <= a <= b <= |s| && Trim(s) == s[a..b]
      && (forall k :: 0 <= k < a ==> IsJsSpace(s[k]))
      && (forall k :: b <= k < |s| ==> IsJsSpace(s[k])))
    ensures |Trim(s)| > 0 ==> !IsJsSpace(Trim(s)[0]) && !IsJsSpace(Trim(s)[|Trim(s)| - 1])
  {
    var a := TrimStartSpec(s);
    var t := s[a..];
    var b := TrimEndSpec(t);
    assert Trim(s) == s[a..a + b];
    assert forall k :: a + b <= k < |s| ==> s[k] == t[k - a];
    if b > 0 {
      assert Trim(s)[0] == t[0];
    }
  }

  lemma {:induction false} TrimStartSpec(s: string) returns (a: nat)
    ensures a <= |s| && TrimStart(s) == s[a..]
    ensures forall k :: 0 <= k < a ==> IsJsSpace(s[k])
    ensures a < |s| ==> !IsJsSpace(s[a])
    decreases |s|
  {
    if |s| > 0 && IsJsSpace(s[0]) {
      var a' := TrimStartSpec(s[1..]);
      a := a' + 1;
      assert s[1..][a'..] == s[a..];
    } else {
      a := 0;
    }
  }

  lemma {:induction false} TrimEndSpec(s: string) returns (b: nat)
    ensures b <= |s| && TrimEnd(s) == s[..b]
    ensures forall k :: b <= k < |s| ==> IsJsSpace(s[k])
    ensures b > 0 ==> !IsJsSpace(s[b - 1])
    decreases |s|
  {
    if |s| > 0 && IsJsSpace(s[|s| - 1]) {
      b := TrimEndSpec(s[..|s| - 1]);
      assert s[..|s| - 1][..b] == s[..b];
    } else {
      b := |s|;
    }
  }

  /** The App.jsx registration draft. */
  datatype Draft = Draft(coronoles: string, parteDelDia: string, observaciones: string,
                         documentoURL: string, parte: string)

  /** A stored row: the draft's fields, the trimmed document link and a status. */
  datatype AppRow = AppRow(draft: Draft, documento: string, estado: string)

  /** `addRow`: the new row, status "Pendiente", goes first and the old rows shift down by one. */
  function AddRow(rows: seq<AppRow>, d: Draft): (r: seq<AppRow>)
    ensures |r| == |rows| + 1
    ensures r[0].draft == d && r[0].documento == Trim(d.documentoURL) && r[0].estado == "Pendiente"
    ensures forall i :: 0 <= i < |rows| ==> r[i + 1] == rows[i]
  {
    [AppRow(d, Trim(d.documentoURL), "Pendiente")] + rows
  }

  /** `String(label || "").toUpperCase() === "REAL"`, upper-casing ASCII letters. */
  predicate IsRealLabel(verdict: Option<string>)
  {
    var s := match verdict case None => "" case Some(v) => v;
    |s| == 4 && UpperAscii(s[0]) == 'R' && UpperAscii(s[1]) == 'E' && UpperAscii(s[2]) == 'A' && UpperAscii(s[3]) == 'L'
  }

  function UpperAscii(c: char): char
  {
    if 'a' <= c <= 'z' then (c as int - 32) as char else c
  }

  /** After a verdict: a REAL label marks the newest row "Corroborado"; nothing else changes. */
  function AfterVerdict(rows: seq<AppRow>, verdict: Option<string>): (r: seq<AppRow>)
    ensures |r| == |rows|
    ensures forall i :: 1 <= i < |rows| ==> r[i] == rows[i]
    ensures |rows| > 0 ==> r[0].draft == rows[0].draft && r[0].documento == rows[0].documento
    ensures |rows| > 0 ==> (r[0].estado == "Corroborado" <==> IsRealLabel(verdict) || rows[0].estado == "Corroborado")
    ensures !IsRealLabel(verdict) ==> r == rows
  {
    if IsRealLabel(verdict) && |rows| > 0 then rows[0 := rows[0].(estado := "Corroborado")] else rows
  }

  /** Lower-case "real" counts as REAL. */
  lemma LowerCaseRealCounts()
    ensures IsRealLabel(Some("real")) && !IsRealLabel(Some("FORGED")) && !IsRealLabel(None)
  {
  }

  /** `removeRow` after the user confirms. */
  function AppRemoveRow(rows: seq<AppRow>, idx: int): (r: seq<AppRow>)
    ensures 0 <= idx < |rows| ==> |r| == |rows| - 1 && r == rows[..idx] + rows[idx + 1..]
    ensures !(0 <= idx < |rows|) ==> r == rows
  {
    RemoveAt(rows, idx)
  }
}
