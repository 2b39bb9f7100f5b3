/**
 * The report rate limiter (`utils/reportLimiter.ts`): the browser stores,
 * under `reportesEnviados`, how many reports were sent on each day, and a
 * report may be sent while today's count is below `LIMIT`. The stored JSON
 * is the field `data`, already parsed; the day key (`toISOString()` cut to
 * `YYYY-MM-DD`) is the parameter `today`.
 */
module ReportLimiter {

  /** At most this many reports a day. */
  const LIMIT: nat := 1

  /** `data[today] || 0`: the reports counted for a day, 0 when it has none. */
  function SentOn(data: map<string, nat>, day: string): nat
  {
    if day in data then data[day] else 0
  }

  /** The stored map after one more report on `today`. */
  function Recorded(data: map<string, nat>, today: string): (r: map<string, nat>)
    ensures SentOn(r, today) == SentOn(data, today) + 1
    ensures forall d :: d != today ==> SentOn(r, d) == SentOn(data, d)
    ensures r.Keys == data.Keys + {today}
  {
    data[today := SentOn(data, today) + 1]
  }

  /** The browser's storage of the sent reports. */
  class ReportLog {
    var data: map<string, nat>

    /** Nothing stored yet: `JSON.parse("{}")`. */
    constructor()
      ensures data == map[]
    {
      data := map[];
    }

    /** `canSendReport`: false exactly when today's count has reached `LIMIT`. */
    method CanSendReport(today: string) returns (r: bool)
      ensures r <==> SentOn(data, today) < LIMIT
    {
      if today in data && data[today] != 0 && data[today] >= LIMIT {
        r := false;
      } else {
        r := true;
      }
    }

    /** `recordReport`: today's count goes up by one, every other day's is kept. */
    method RecordReport(today: string)
      modifies this
      ensures data == Recorded(old(data), today)
    {
      var count := if today in data then data[today] else 0;
      data := data[today := count + 1];
    }
  }

  /** With nothing stored, a report may be sent on any day. */
  lemma EmptyAllows(today: string)
    ensures SentOn(map[], today) < LIMIT
  {
  }

  /** After a report is recorded on a day, no other report may be sent that day. */
  lemma RecordedBlocks(data: map<string, nat>, today: string)
    ensures SentOn(Recorded(data, today), today) >= LIMIT
  {
  }

  /** Recording never unblocks a day and never blocks another one. */
  lemma RecordedOtherDays(data: map<string, nat>, today: string, day: string)
    requires day != today
    ensures SentOn(Recorded(data, today), day) < LIMIT <==> SentOn(data, day) < LIMIT
  {
  }

  /** The first report of a day is allowed and the second is not. */
  method OneReportADay(log: ReportLog, today: string) returns (first: bool, second: bool)
    requires today !in log.data
    modifies log
    ensures first && !second
    ensures log.data == old(log.data)[today := 1]
  {
    first := log.CanSendReport(today);
    log.RecordReport(today);
    RecordedBlocks(old(log.data), today);
    second := log.CanSendReport(today);
  }
}
