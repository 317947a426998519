/** The identifier allocator of rebuild_site_v2.py: the page date inferred
    from the file name (or the injected current date), its compact `YYYYMMDD`
    form, and the per-date counter that numbers the pages of one date. */
module Identifiers {

  import opened Text
  import opened Decimal

  /** `YYYY-MM-DD` with ASCII digits. */
  predicate IsDateShape(d: string)
  {
    && |d| == 10
    && d[4] == '-' && d[7] == '-'
    && IsDigit(d[0]) && IsDigit(d[1]) && IsDigit(d[2]) && IsDigit(d[3])
    && IsDigit(d[5]) && IsDigit(d[6]) && IsDigit(d[8]) && IsDigit(d[9])
  }

  /** The file name starts with `DDDD-DD-DD__` (the `^(\d{4})-(\d{2})-(\d{2})__` match). */
  predicate HasDatePrefix(fname: string)
  {
    |fname| >= 12 && IsDateShape(fname[..10]) && fname[10] == '_' && fname[11] == '_'
  }

  /** `infer_date_from_filename`, with the wall clock replaced by `today`
      (what `datetime.now().strftime("%Y-%m-%d")` would give). */
  function InferDate(fname: string, today: string): (r: string)
    ensures HasDatePrefix(fname) ==> r == fname[..10] && IsDateShape(r)
    ensures !HasDatePrefix(fname) ==> r == today
  {
    if HasDatePrefix(fname) then fname[..10] else today
  }

  /** `date.replace("-", "")`: the date with every dash deleted. */
  function CompactDate(date: string): (r: string)
    ensures forall k :: 0 <= k < |r| ==> r[k] != '-'
    ensures IsDateShape(date) ==> |r| == 8 && AllDigits(r)
  {
    ReplaceCharDeletes(date, '-');
    if IsDateShape(date) then
      CompactShape(date);
      ReplaceAll(date, "-", "")
    else
      ReplaceAll(date, "-", "")
  }

  /** The compact form of a `YYYY-MM-DD` date is its eight digits in order. */
  lemma CompactShape(d: string)
    requires IsDateShape(d)
    ensures Without(d, '-') == d[..4] + d[5..7] + d[8..]
  {
    assert d == d[..4] + "-" + d[5..7] + "-" + d[8..];
    WithoutConcat(d[..4] + "-" + d[5..7] + "-", d[8..], '-');
    WithoutConcat(d[..4] + "-" + d[5..7], "-", '-');
    WithoutConcat(d[..4] + "-", d[5..7], '-');
    WithoutConcat(d[..4], "-", '-');
    WithoutAbsent(d[..4], '-');
    WithoutAbsent(d[5..7], '-');
    WithoutAbsent(d[8..], '-');
  }

  /** Re-inserting the dashes into a compact date. */
  function ExpandDate(c: string): string
    requires |c| == 8
  {
    c[..4] + "-" + c[4..6] + "-" + c[6..]
  }

  /** The compact form loses nothing: a `YYYY-MM-DD` date comes back from it. */
  lemma CompactDateRoundTrip(d: string)
    requires IsDateShape(d)
    ensures |CompactDate(d)| == 8 && ExpandDate(CompactDate(d)) == d
  {
    ReplaceCharDeletes(d, '-');
    CompactShape(d);
    var c := CompactDate(d);
    assert c[..4] == d[..4] && c[4..6] == d[5..7] && c[6..] == d[8..];
    assert d == d[..4] + "-" + d[5..7] + "-" + d[8..];
  }

  /** `f"{date_compact}-{n:02d}"`: the compact date, a dash, then digits that
      read back as `n`, exactly two of them below 100. */
  function FormatId(compact: string, n: nat): (r: string)
    ensures |r| >= |compact| + 3 && r[..|compact|] == compact && r[|compact|] == '-'
    ensures AllDigits(r[|compact| + 1..]) && ParseDecimal(r[|compact| + 1..]) == n
    ensures n < 100 ==> |r| == |compact| + 3
  {
    assert (compact + "-" + Pad2(n))[|compact| + 1..] == Pad2(n);
    compact + "-" + Pad2(n)
  }

  predicate IsDash(c: char)
  {
    c == '-'
  }

  /** In `d + "-" + x` with a dash-free `d`, the first dash is the one after `d`. */
  lemma FirstDashAfter(d: string, x: string)
    requires forall k :: 0 <= k < |d| ==> d[k] != '-'
    ensures FindChar(d + "-" + x, 0, IsDash) == |d|
  {
    var s := d + "-" + x;
    assert IsDash(s[|d|]);
  }

  /** A dash-free compact date and a sequence number can be read back from
      the id they form: two ids are equal only when both parts are. */
  lemma FormatIdInjective(d1: string, n1: nat, d2: string, n2: nat)
    requires forall k :: 0 <= k < |d1| ==> d1[k] != '-'
    requires forall k :: 0 <= k < |d2| ==> d2[k] != '-'
    requires FormatId(d1, n1) == FormatId(d2, n2)
    ensures d1 == d2 && n1 == n2
  {
    var id := FormatId(d1, n1);
    FirstDashAfter(d1, Pad2(n1));
    FirstDashAfter(d2, Pad2(n2));
    assert d1 == id[..|d1|] == d2;
    assert Pad2(n1) == id[|d1| + 1..] == Pad2(n2);
  }

  /** The counter value of a date, 0 when the date was never seen
      (`counters.setdefault(d, 0)`). */
  function Count(counters: map<string, nat>, d: string): nat
  {
    if d in counters then counters[d] else 0
  }
}
