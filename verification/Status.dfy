/** What a status response says: position, battery, charge, calibration. */
module Status {
  import opened Bytes
  import opened Results
  import opened AppCodec

  const MAX_RAW := 1000

  /** round(raw / 10): to the nearest percent, halves to even. */
  function RoundTenth(raw: nat): nat {
    var q, r := raw / 10, raw % 10;
    if r < 5 then q else if r > 5 then q + 1 else if q % 2 == 0 then q else q + 1
  }

  function RawPositionToPercent(raw: int): Result<nat> {
    if 0 <= raw <= MAX_RAW then Ok(RoundTenth(raw)) else Err(Protocol)
  }

  function PositionPercent(s: ShadeStatus): nat {
    RoundTenth(s.rawPosition)
  }

  function Distance(a: int, b: int): nat {
    if a < b then b - a else a - b
  }

  /** The percent is the nearest one; of two equally near, the even one. */
  lemma PercentIsNearest(raw: int, p: nat, q: nat)
    requires RawPositionToPercent(raw) == Ok(p) && q != p
    ensures Distance(10 * p, raw) <= 5
    ensures Distance(10 * p, raw) <= Distance(10 * q, raw)
    ensures Distance(10 * p, raw) == Distance(10 * q, raw) ==> p % 2 == 0 && q % 2 == 1
  {
    assert raw == 10 * (raw / 10) + raw % 10;
  }

  lemma PercentMonotone(a: nat, b: nat)
    requires a <= b
    ensures RoundTenth(a) <= RoundTenth(b)
  {
    assert a == 10 * (a / 10) + a % 10 && b == 10 * (b / 10) + b % 10;
    assert a / 10 <= b / 10;
  }

  /** Exactly the raw positions to 1000 have a percent. */
  lemma PercentInRange(raw: int)
    ensures if 0 <= raw <= 1000 then RawPositionToPercent(raw).Ok? else RawPositionToPercent(raw) == Err(Protocol)
  {}

  /** A whole percent survives the way to raw position and back. */
  lemma PercentLeftInverse(p: nat)
    ensures RawPositionToPercent(p * 10) == if p <= 100 then Ok(p) else Err(Protocol)
    ensures RoundTenth(p * 10) == p
  {}

  function ParseRawPosition(r: ApplicationResponse): Result<nat> {
    if !r.command.GetPosition? && !r.command.GetStatus? then Err(Protocol)
    else if |r.payload| < 2 then Err(Protocol)
    else
      var raw := FromLe16(r.payload[..2]);
      if raw > MAX_RAW then Err(Protocol) else Ok(raw)
  }

  function ParseStatus(r: ApplicationResponse): Result<ShadeStatus> {
    if !r.command.GetStatus? then Err(Protocol)
    else if |r.payload| != 5 then Err(Protocol)
    else
      var raw :- ParseRawPosition(r);
      var battery := r.payload[2];
      if battery > 100 then Err(Protocol)
      else
        var calibrated := r.payload[4];
        if calibrated > 1 then Err(Protocol)
        else Ok(ShadeStatus(raw, battery, r.payload[3], calibrated == 1))
  }

  function StatusPayload(raw: nat, battery: byte, charge: byte, calibrated: byte): bytes
    requires raw < 0x1_0000
  {
    Le16(raw) + [battery, charge, calibrated]
  }

  /** A raw position is read off the first two bytes of either kind of response. */
  lemma ParseRawExact(r: ApplicationResponse, raw: nat)
    ensures ParseRawPosition(r) == Ok(raw) <==>
            (r.command.GetPosition? || r.command.GetStatus?) && raw <= 1000 && Le16(raw) <= r.payload
  {
    if |r.payload| >= 2 {
      Le16Inverse(r.payload[..2]);
    }
  }

  /** Parsing accepts exactly the payloads of statuses in range, and inverts them. */
  lemma ParseStatusExact(r: ApplicationResponse, s: ShadeStatus)
    ensures ParseStatus(r) == Ok(s) <==>
            && r.command.GetStatus?
            && s.rawPosition <= 1000 && s.battery <= 100 && s.charge < 256
            && r.payload == Le16(s.rawPosition) + [s.battery, s.charge, if s.calibrated then 1 else 0]
    ensures ParseStatus(r).Err? ==> ParseStatus(r) == Err(Protocol)
  {
    if |r.payload| == 5 {
      Le16Inverse(r.payload[..2]);
      assert r.payload == r.payload[..2] + [r.payload[2], r.payload[3], r.payload[4]];
    }
  }
}
