/** The entries of the rebuilt manifest and how their ids are numbered:
    the `n`-th page of a date gets the id `YYYYMMDD-nn`. */
module Manifest {

  import Identifiers

  /** One entry of the rebuilt manifest. */
  datatype NewPage = NewPage(id: string, title: string, description: string,
                             category: string, date: string, href: string)

  /** The `href` of every entry, in order. */
  function Hrefs(out: seq<NewPage>): (r: seq<string>)
    ensures |r| == |out|
    ensures forall k :: 0 <= k < |out| ==> r[k] == out[k].href
  {
    if out == [] then [] else Hrefs(out[..|out| - 1]) + [out[|out| - 1].href]
  }

  /** How many of the first `n` entries of `out` carry a date whose compact
      form is `c`. */
  function CountDateBefore(out: seq<NewPage>, n: nat, c: string): nat
    requires n <= |out|
  {
    if n == 0 then 0
    else CountDateBefore(out, n - 1, c) + (if Identifiers.CompactDate(out[n - 1].date) == c then 1 else 0)
  }

  /** How many of `out` carry a date whose compact form is `c`. */
  function CountDate(out: seq<NewPage>, c: string): nat
  {
    CountDateBefore(out, |out|, c)
  }

  /** The id the `k`-th entry should carry: its compact date and its rank
      among the entries of that date up to and including it. */
  function ExpectedId(out: seq<NewPage>, k: nat): string
    requires k < |out|
  {
    var c := Identifiers.CompactDate(out[k].date);
    Identifiers.FormatId(c, CountDateBefore(out, k + 1, c))
  }

  ghost predicate IdsNumbered(out: seq<NewPage>)
  {
    forall k: nat {:trigger ExpectedId(out, k)} :: k < |out| ==> out[k].id == ExpectedId(out, k)
  }

  /** Appending an entry leaves the counts over the old entries alone. */
  lemma {:induction false} CountDateBeforeAppend(out: seq<NewPage>, np: NewPage, n: nat, c: string)
    requires n <= |out|
    ensures CountDateBefore(out + [np], n, c) == CountDateBefore(out, n, c)
  {
    if n > 0 {
      CountDateBeforeAppend(out, np, n - 1, c);
      assert (out + [np])[n - 1] == out[n - 1];
    }
  }

  lemma CountDateAppend(out: seq<NewPage>, np: NewPage, c: string)
    ensures CountDate(out + [np], c) == CountDate(out, c) + (if Identifiers.CompactDate(np.date) == c then 1 else 0)
  {
    CountDateBeforeAppend(out, np, |out|, c);
    assert (out + [np])[|out|] == np;
  }

  /** Appending an entry numbered after the entries of its date keeps the
      ids numbered. */
  lemma {:induction false} AppendIds(out: seq<NewPage>, np: NewPage, cnt: nat)
    requires IdsNumbered(out)
    requires var c := Identifiers.CompactDate(np.date);
             cnt == CountDate(out, c) && np.id == Identifiers.FormatId(c, cnt + 1)
    ensures IdsNumbered(out + [np])
  {
    var o := out + [np];
    forall k: nat | k < |o| ensures o[k].id == ExpectedId(o, k) {
      AppendIdAt(out, np, cnt, k);
    }
  }

  lemma AppendIdAt(out: seq<NewPage>, np: NewPage, cnt: nat, k: nat)
    requires IdsNumbered(out)
    requires var c := Identifiers.CompactDate(np.date);
             cnt == CountDate(out, c) && np.id == Identifiers.FormatId(c, cnt + 1)
    requires k < |out| + 1
    ensures (out + [np])[k].id == ExpectedId(out + [np], k)
  {
    if k < |out| {
      ExpectedIdPrefix(out, np, k);
      assert out[k].id == ExpectedId(out, k);
    } else {
      LastExpectedId(out, np);
    }
  }

  lemma ExpectedIdPrefix(out: seq<NewPage>, np: NewPage, k: nat)
    requires k < |out|
    ensures (out + [np])[k] == out[k] && ExpectedId(out + [np], k) == ExpectedId(out, k)
  {
    assert (out + [np])[k] == out[k];
    CountDateBeforeAppend(out, np, k + 1, Identifiers.CompactDate(out[k].date));
  }

  lemma LastExpectedId(out: seq<NewPage>, np: NewPage)
    ensures var c := Identifiers.CompactDate(np.date);
            (out + [np])[|out|] == np && ExpectedId(out + [np], |out|) == Identifiers.FormatId(c, CountDate(out, c) + 1)
  {
    assert (out + [np])[|out|] == np;
    CountDateBeforeAppend(out, np, |out|, Identifiers.CompactDate(np.date));
  }

  lemma {:induction false} CountDatePrefix(out: seq<NewPage>, a: nat, b: nat, c: string)
    requires a <= b <= |out|
    ensures CountDateBefore(out, a, c) <= CountDateBefore(out, b, c)
    decreases b - a
  {
    if a < b {
      CountDatePrefix(out, a, b - 1, c);
    }
  }

  /** No two entries share an id. */
  predicate DistinctIds(out: seq<NewPage>)
  {
    forall k, l :: 0 <= k < l < |out| ==> out[k].id != out[l].id
  }

  /** Numbered ids never repeat, even when the same file is listed twice. */
  lemma IdsDistinct(out: seq<NewPage>)
    requires IdsNumbered(out)
    ensures DistinctIds(out)
  {
    forall k: nat, l: nat | k < l < |out| ensures out[k].id != out[l].id {
      if out[k].id == out[l].id {
        IdsApart(out, k, l);
      }
    }
  }

  lemma IdsApart(out: seq<NewPage>, k: nat, l: nat)
    requires k < l < |out|
    ensures ExpectedId(out, k) != ExpectedId(out, l)
  {
    var ck := Identifiers.CompactDate(out[k].date);
    var cl := Identifiers.CompactDate(out[l].date);
    var nk := CountDateBefore(out, k + 1, ck);
    var nl := CountDateBefore(out, l + 1, cl);
    CountDatePrefix(out, k + 1, l, ck);
    assert ck == cl ==> nk < nl;
    if ExpectedId(out, k) == ExpectedId(out, l) {
      Identifiers.FormatIdInjective(ck, nk, cl, nl);
    }
  }

}
