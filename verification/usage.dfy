/** The cache usage reading that opens the threshold gate. */
module Usage {
  import opened Settings

  /** What the disk-usage query returned: byte counts, or an error. */
  datatype DiskUsage = Reading(used: nat, total: nat) | Unavailable

  /**
    The cache usage in percent. A failing query, including a division by a
    zero total, yields 0.
   */
  function UsagePercentage(d: DiskUsage): (r: real)
    ensures r >= 0.0
    ensures d.Reading? && d.used <= d.total ==> r <= 100.0
    ensures d.Unavailable? || d.total == 0 ==> r == 0.0
    ensures d.Reading? && d.total > 0 ==> r * d.total as real == 100.0 * d.used as real
  {
    match d
    case Unavailable => 0.0
    case Reading(used, total) =>
      if total == 0 then 0.0 else (used as real / total as real) * 100.0
  }

  /**
    The gate compares used bytes with the threshold's share of the total:
    the usage reaches `threshold` exactly when `100 * used >= threshold * total`;
    an unusable reading reaches it only when the threshold is not positive.
   */
  lemma UsageReachesThreshold(d: DiskUsage, threshold: real)
    ensures d.Reading? && d.total > 0 ==>
      (UsagePercentage(d) >= threshold <==> 100.0 * d.used as real >= threshold * d.total as real)
    ensures (d.Unavailable? || d.total == 0) ==> (UsagePercentage(d) >= threshold <==> threshold <= 0.0)
  {
    if d.Reading? && d.total > 0 {
      var u := d.used as real;
      var t := d.total as real;
      assert UsagePercentage(d) == (u / t) * 100.0;
      assert (u / t) * 100.0 * t == 100.0 * u;
      if (u / t) * 100.0 >= threshold {
        assert (u / t) * 100.0 * t >= threshold * t;
      } else {
        assert (u / t) * 100.0 * t < threshold * t;
      }
    }
  }

  /**
    A failed usage query never opens the gate while the threshold is
    positive, as the default of 90 is.
   */
  lemma UnreadableUsageStaysBelow(d: DiskUsage, threshold: real)
    requires d.Unavailable? || d.total == 0
    requires threshold > 0.0
    ensures UsagePercentage(d) < threshold
    ensures UsagePercentage(d) < DefaultThreshold
  {
  }
}
