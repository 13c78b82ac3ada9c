/**
 * Scheduling helpers of includes/class-plugin.php: the rounding of the clock for the daily and
 * the one-time sitemap update events, and the post status change that triggers an update.
 *
 * `wp_schedule_event`, `wp_schedule_single_event` and the clock are WordPress; only the values
 * passed to them are modelled.
 */
module Schedule {
  const HourInSeconds: int := 3600
  const QuarterHourInSeconds: int := HourInSeconds / 4
  const PublishStatus: string := "publish"

  /** PHP `intval` of `$a / $b` for a positive `$b`: the quotient truncated toward zero. */
  function TruncDiv(a: int, b: int): (q: int)
    requires b > 0
    ensures a >= 0 ==> 0 <= b * q <= a < b * q + b
    ensures a < 0 ==> b * q - b < a <= b * q <= 0
  {
    if a >= 0 then
      DivBounds(a, b);
      a / b
    else
      DivBounds(-a, b);
      assert b * -((-a) / b) == -(b * ((-a) / b));
      -((-a) / b)
  }

  lemma DivBounds(a: int, b: int)
    requires a >= 0 && b > 0
    ensures 0 <= b * (a / b) <= a < b * (a / b) + b
  {
    var q, r := a / b, a % b;
    assert a == b * q + r && 0 <= r < b;
    assert q >= 0;
    assert b * q >= 0;
  }

  /** `timestamp_top_hour`. */
  function TopOfHour(t: int): (r: int)
    ensures r % HourInSeconds == 0
    ensures t >= 0 ==> r <= t < r + HourInSeconds
    ensures t < 0 ==> r - HourInSeconds < t <= r
  {
    Rounded(t, HourInSeconds);
    TruncDiv(t, HourInSeconds) * HourInSeconds
  }

  /** `t` rounded toward zero to a multiple of `b`. */
  lemma Rounded(t: int, b: int)
    requires b > 0
    ensures var r := TruncDiv(t, b) * b;
      && r % b == 0
      && (t >= 0 ==> r <= t < r + b)
      && (t < 0 ==> r - b < t <= r)
  {
    var q := TruncDiv(t, b);
    assert q * b == b * q;
    MultipleMod(q, b);
  }

  /**
   * `timestamp_quarter_hour`: the quotient by 900 seconds, truncated, times 3600 and divided by
   * four (exact, since the product is a multiple of four).
   */
  function QuarterHour(t: int): (r: int)
    ensures r % QuarterHourInSeconds == 0
    ensures t >= 0 ==> r <= t < r + QuarterHourInSeconds
    ensures t < 0 ==> r - QuarterHourInSeconds < t <= r
  {
    var q := TruncDiv(t, QuarterHourInSeconds);
    QuarterOfHours(q);
    Rounded(t, QuarterHourInSeconds);
    q * HourInSeconds / 4
  }

  lemma QuarterOfHours(q: int)
    ensures q * HourInSeconds / 4 == q * QuarterHourInSeconds
  {
    assert q * HourInSeconds == 4 * (q * QuarterHourInSeconds);
  }

  /** The quotient of a multiple is exact, whatever its sign. */
  lemma TruncDivOfMultiple(k: int, b: int)
    requires b > 0
    ensures TruncDiv(k * b, b) == k
  {
    if k >= 0 {
      MultipleDiv(k, b);
    } else {
      assert -(k * b) == (-k) * b;
      MultipleDiv(-k, b);
    }
  }

  lemma MultipleDiv(k: int, b: int)
    requires k >= 0 && b > 0
    ensures (k * b) / b == k
  {
    var q, r := (k * b) / b, (k * b) % b;
    assert k * b == b * q + r && 0 <= r < b;
    assert b * (k - q) == r;
    MulSign(k - q, b);
  }

  lemma MultipleMod(k: int, b: int)
    requires b > 0
    ensures (k * b) % b == 0
  {
    var q, r := (k * b) / b, (k * b) % b;
    assert k * b == b * q + r && 0 <= r < b;
    assert b * (k - q) == r;
    MulSign(k - q, b);
  }

  lemma MulSign(x: int, b: int)
    requires b > 0
    ensures x >= 1 ==> b * x >= b
    ensures x <= -1 ==> b * x <= -b
  {
    if x >= 1 {
      assert b * x == b + b * (x - 1);
    } else if x <= -1 {
      assert b * x == -b + b * (x + 1);
    }
  }

  /** Rounding to the hour does nothing to a time already on the hour. */
  lemma TopOfHourIdempotent(t: int)
    ensures TopOfHour(TopOfHour(t)) == TopOfHour(t)
  {
    TruncDivOfMultiple(TruncDiv(t, HourInSeconds), HourInSeconds);
  }

  /** `timestamp_quarter_hour` is the truncated quotient by 900 seconds, times 900. */
  lemma QuarterHourIsMultiple(t: int)
    ensures QuarterHour(t) == TruncDiv(t, QuarterHourInSeconds) * QuarterHourInSeconds
  {
    QuarterOfHours(TruncDiv(t, QuarterHourInSeconds));
  }

  /** Rounding to the quarter hour does nothing to a time already on a quarter hour. */
  lemma QuarterHourIdempotent(t: int)
    ensures QuarterHour(QuarterHour(t)) == QuarterHour(t)
  {
    var q := TruncDiv(t, QuarterHourInSeconds);
    QuarterHourIsMultiple(t);
    QuarterHourIsMultiple(QuarterHour(t));
    TruncDivOfMultiple(q, QuarterHourInSeconds);
  }

  /** A time on the hour is also on a quarter hour. */
  lemma TopOfHourIsQuarterHour(t: int)
    ensures QuarterHour(TopOfHour(t)) == TopOfHour(t)
  {
    var h := TruncDiv(t, HourInSeconds);
    assert TopOfHour(t) == (4 * h) * QuarterHourInSeconds;
    QuarterHourIsMultiple(TopOfHour(t));
    TruncDivOfMultiple(4 * h, QuarterHourInSeconds);
  }

  /**
   * For a clock after the epoch, the one-time update is never scheduled before the daily one's
   * hour: the quarter hour lies between the top of the hour and the clock.
   */
  lemma QuarterHourWithinHour(t: int)
    requires t >= 0
    ensures TopOfHour(t) <= QuarterHour(t) <= t
  {
    var h := TruncDiv(t, HourInSeconds);
    var q := TruncDiv(t, QuarterHourInSeconds);
    QuarterHourIsMultiple(t);
    assert TopOfHour(t) == h * HourInSeconds;
    HourBeforeQuarter(t, h, q);
  }

  /**
   * Both `3600 * h` and `900 * q` are multiples of 900 no greater than `t`, and `900 * q` is the
   * largest one.
   */
  lemma HourBeforeQuarter(t: int, h: int, q: int)
    requires 3600 * h <= t < 900 * q + 900
    ensures h * 3600 <= q * 900
  {
    LargestMultiple(4 * h, q, 900, t);
  }

  /** A multiple of `b` no greater than `t` is at most the largest one, `q * b`. */
  lemma LargestMultiple(a: int, q: int, b: int, t: int)
    requires b > 0 && a * b <= t < q * b + b
    ensures a * b <= q * b
  {
    MulSign(a - q, b);
    assert b * (a - q) == a * b - q * b;
  }

  /**
   * `has_post_published_status_changed`: a change of status counts exactly when the post enters
   * or leaves 'publish'.
   */
  predicate PublishedStatusChanged(newStatus: string, oldStatus: string)
    ensures PublishedStatusChanged(newStatus, oldStatus)
      <==> ((newStatus == PublishStatus) != (oldStatus == PublishStatus))
  {
    newStatus != oldStatus && (newStatus == PublishStatus || oldStatus == PublishStatus)
  }

  /**
   * `schedule_sitemap_update_on_post_change`: whether the transition of a post of type
   * `postType` schedules an update, given the configured post types.
   */
  predicate SchedulesOnPostChange(newStatus: string, oldStatus: string, postType: string,
                                  postTypes: seq<string>)
    ensures SchedulesOnPostChange(newStatus, oldStatus, postType, postTypes) <==>
      ((newStatus == PublishStatus) != (oldStatus == PublishStatus)) && postType in postTypes
  {
    PublishedStatusChanged(newStatus, oldStatus) && postType in postTypes
  }

  /** Edits that keep a post published, and changes among unpublished states, never schedule. */
  lemma UnpublishedEditsDoNotSchedule(newStatus: string, oldStatus: string, postType: string,
                                      postTypes: seq<string>)
    requires (newStatus == PublishStatus) == (oldStatus == PublishStatus)
    ensures !SchedulesOnPostChange(newStatus, oldStatus, postType, postTypes)
  {
  }
}
