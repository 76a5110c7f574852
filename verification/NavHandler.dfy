/** The navigation handlers of `N2KHandler`, field by field, and the main-loop pass that hands the state over. */
module NavHandler {
  import opened Bytes
  import opened Clock
  import opened N2kValues
  import opened NavState

  class N2KHandler {
    var fields: Values
    var updates: Stamps
    var dirtyNavState: bool

    function Current(): State
      reads this
    {
      State(fields, updates, dirtyNavState)
    }

    constructor ()
      ensures Current() == INITIAL
    {
      fields, updates, dirtyNavState := ALL_NA, Stamps(0, 0, 0, 0, 0, 0, 0, 0, 0, 0, 0, 0), false;
    }

    /** PGN 127258. */
    method Handle127258(variation: real, now: u32)
      modifies this
      ensures Current() == Handle(old(Current()), MagneticVariation(variation), now)
    {
      if fields.variation != variation {
        dirtyNavState := true;
      }
      if variation != NA {
        fields := fields.(variation := variation);
        updates := updates.(variation := now);
      }
    }

    /** The variation a heading message carries. */
    method TakeVariation(variation: real, now: u32)
      modifies this
      ensures Current() == OnVariation(old(Current()), variation, now)
    {
      if variation != NA {
        if fields.variation != variation {
          dirtyNavState := true;
        }
        fields := fields.(variation := variation);
        updates := updates.(variation := now);
      }
    }

    /** PGN 127250. */
    method Handle127250(magnetic: bool, heading: real, variation: real, now: u32)
      modifies this
      ensures Current() == Handle(old(Current()), VesselHeading(magnetic, heading, variation), now)
    {
      hide OnVariation;
      TakeVariation(variation, now);
      if magnetic {
        if fields.headingMagnetic != heading {
          dirtyNavState := true;
        }
        if heading != NA {
          fields := fields.(headingMagnetic := heading);
          updates := updates.(heading := now);
          if fields.variation != NA {
            fields := fields.(headingTrue := fields.headingMagnetic - fields.variation);
          }
        }
      } else {
        if fields.headingTrue != heading {
          dirtyNavState := true;
        }
        if heading != NA && fields.headingMagnetic == NA {
          fields := fields.(headingTrue := heading);
          updates := updates.(heading := now);
          if fields.variation != NA {
            fields := fields.(headingMagnetic := fields.headingTrue + fields.variation);
          }
        }
      }
    }

    /** PGN 128259. */
    method Handle128259(speed: real, now: u32)
      modifies this
      ensures Current() == Handle(old(Current()), WaterSpeed(speed), now)
    {
      hide Update;
      if fields.stw != speed {
        dirtyNavState := true;
      }
      var stw, stamp := UpdateWithTimeout(fields.stw, speed, updates.stw, now);
      fields, updates := fields.(stw := stw), updates.(stw := stamp);
    }

    /** PGN 128267. */
    method Handle128267(depth: real, now: u32)
      modifies this
      ensures Current() == Handle(old(Current()), WaterDepth(depth), now)
    {
      if fields.depth != depth {
        dirtyNavState := true;
      }
      fields := fields.(depth := depth);
      if depth != NA {
        updates := updates.(depth := now);
      }
    }

    /** PGN 128275. */
    method Handle128275(log: u32, now: u32)
      modifies this
      ensures Current() == Handle(old(Current()), DistanceLog(log), now)
    {
      if fields.log != log {
        dirtyNavState := true;
      }
      fields := fields.(log := log);
      if log != NA32 {
        updates := updates.(log := now);
      }
    }

    /** PGN 129029. */
    method Handle129029(latitude: real, longitude: real, isUnsafe: bool, now: u32)
      modifies this
      ensures Current() == Handle(old(Current()), GnssPosition(latitude, longitude, isUnsafe), now)
    {
      if fields.latitude != latitude || fields.longitude != longitude {
        dirtyNavState := true;
      }
      if !isUnsafe {
        updates := updates.(faa := now);
        fields := fields.(latitude := latitude, longitude := longitude);
        updates := updates.(latLon := now);
      } else if (now - updates.faa) % 0x1_0000_0000 > FAA_MS {
        fields := fields.(latitude := latitude, longitude := longitude);
        updates := updates.(latLon := now);
      }
    }

    /** PGN 129025. */
    method Handle129025(latitude: real, longitude: real, now: u32)
      modifies this
      ensures Current() == Handle(old(Current()), RapidPosition(latitude, longitude), now)
    {
      if fields.latitude != latitude || fields.longitude != longitude {
        dirtyNavState := true;
      }
      fields := fields.(latitude := latitude, longitude := longitude);
      updates := updates.(latLon := now);
    }

    /** PGN 129026. */
    method Handle129026(magnetic: bool, cog: real, sog: real, now: u32)
      modifies this
      ensures Current() == Handle(old(Current()), CogSog(magnetic, cog, sog), now)
    {
      hide Update;
      var newCogm, newCogt := NA, NA;
      if (if magnetic then fields.cogm else fields.cogt) != cog || fields.sog != sog {
        dirtyNavState := true;
      }
      if cog != NA {
        if magnetic {
          newCogm := cog;
          if fields.variation != NA {
            newCogt := cog - fields.variation;
          }
        } else {
          newCogt := cog;
          if fields.variation != NA {
            newCogm := cog + fields.variation;
          }
        }
      }
      var cogt, cogtStamp := UpdateWithTimeout(fields.cogt, newCogt, updates.cogt, now);
      var cogm, cogmStamp := UpdateWithTimeout(fields.cogm, newCogm, updates.cogm, now);
      var newSog, sogStamp := UpdateWithTimeout(fields.sog, sog, updates.sog, now);
      fields := fields.(cogt := cogt, cogm := cogm, sog := newSog);
      updates := updates.(cogt := cogtStamp, cogm := cogmStamp, sog := sogStamp);
    }

    /** PGN 130306. */
    method Handle130306(apparent: bool, angle: real, speed: real, now: u32)
      modifies this
      ensures Current() == Handle(old(Current()), Wind(apparent, angle, speed), now)
    {
      hide Update;
      if apparent {
        if fields.awa != angle || fields.aws != speed {
          dirtyNavState := true;
        }
        var awa, awaStamp := UpdateWithTimeout(fields.awa, angle, updates.awa, now);
        var aws, awsStamp := UpdateWithTimeout(fields.aws, speed, updates.aws, now);
        fields, updates := fields.(awa := awa, aws := aws), updates.(awa := awaStamp, aws := awsStamp);
      }
    }

    /** `handle`: each message goes to its handler. */
    method HandleMessage(m: Message, now: u32)
      modifies this
      ensures Current() == Handle(old(Current()), m, now)
    {
      hide Handle;
      match m
      case MagneticVariation(variation) => Handle127258(variation, now);
      case VesselHeading(magnetic, heading, variation) => Handle127250(magnetic, heading, variation, now);
      case WaterSpeed(speed) => Handle128259(speed, now);
      case WaterDepth(depth) => Handle128267(depth, now);
      case DistanceLog(log) => Handle128275(log, now);
      case GnssPosition(latitude, longitude, isUnsafe) => Handle129029(latitude, longitude, isUnsafe, now);
      case RapidPosition(latitude, longitude) => Handle129025(latitude, longitude, now);
      case CogSog(magnetic, cog, sog) => Handle129026(magnetic, cog, sog, now);
      case Wind(apparent, angle, speed) => Handle130306(apparent, angle, speed, now);
    }

    /** The first half of `expireStaleNavData`. */
    method ExpireStaleMotion(now: u32) returns (changed: bool)
      modifies this`fields
      ensures fields == ExpireMotion(old(fields), updates, now)
      ensures changed <==> fields != old(fields)
    {
      hide Expired, Stale;
      var t := updates;
      changed := fields.latitude != NA && Stale(t.latLon, now);
      if changed {
        fields := fields.(latitude := NA, longitude := NA);
      }
      var cogt, c1 := ExpireField(fields.cogt, t.cogt, now);
      var cogm, c2 := ExpireField(fields.cogm, t.cogm, now);
      var sog, c3 := ExpireField(fields.sog, t.sog, now);
      var variation, c4 := ExpireField(fields.variation, t.variation, now);
      fields := fields.(cogt := cogt, cogm := cogm, sog := sog, variation := variation);
      changed := changed || c1 || c2 || c3 || c4;
    }

    /** The second half. */
    method ExpireStaleReadings(now: u32) returns (changed: bool)
      modifies this`fields
      ensures fields == ExpireReadings(old(fields), updates, now)
      ensures changed <==> fields != old(fields)
    {
      hide Expired, Stale;
      var t := updates;
      changed := fields.headingMagnetic != NA && Stale(t.heading, now);
      if changed {
        fields := fields.(headingMagnetic := NA, headingTrue := NA);
      }
      var depth, c1 := ExpireField(fields.depth, t.depth, now);
      var awa, c2 := ExpireField(fields.awa, t.awa, now);
      var aws, c3 := ExpireField(fields.aws, t.aws, now);
      var stw, c4 := ExpireField(fields.stw, t.stw, now);
      fields := fields.(depth := depth, awa := awa, aws := aws, stw := stw);
      var log := fields.log != NA32 && Stale(t.log, now);
      if log {
        fields := fields.(log := NA32);
      }
      changed := changed || c1 || c2 || c3 || c4 || log;
    }

    /** `isNavStateDirty`, which expires first. */
    method IsNavStateDirty(now: u32) returns (d: bool)
      modifies this
      ensures Current() == Expire(old(Current()), now) && d == dirtyNavState
    {
      hide ExpireMotion, ExpireReadings;
      ghost var was := fields;
      var motion := ExpireStaleMotion(now);
      var readings := ExpireStaleReadings(now);
      BothHalves(was, updates, now);
      if motion || readings {
        dirtyNavState := true;
      }
      d := dirtyNavState;
    }
  }

  /** The halves touch different fields, so that neither undoes a change of the other. */
  lemma BothHalves(v: Values, t: Stamps, now: u32)
    ensures var v' := ExpireMotion(v, t, now); v' != v ==> ExpireReadings(v', t, now) != v
  {
    hide Stale, Expired;
  }

  /** One field of `expireStaleNavData`, and whether it went from live to stale. */
  method ExpireField(value: real, stamp: u32, now: u32) returns (value': real, changed: bool)
    ensures value' == Expired(value, stamp, now) && (changed <==> value' != value)
  {
    value', changed := value, false;
    if value != NA && Elapsed(now, stamp) > NAV_TIMEOUT_MS {
      value', changed := NA, true;
    }
  }

  /** The navigation part of a main-loop pass: `sent` is what the BLE server holds. */
  method LoopPass(n2k: N2KHandler, sent: Published, now: u32) returns (sent': Published)
    modifies n2k
    ensures n2k.Current() == Expire(old(n2k.Current()), now).(dirty := false)
    ensures sent' == if Expire(old(n2k.Current()), now).dirty then Publish(n2k.fields) else sent
  {
    hide ExpireValues;
    sent' := sent;
    var d := n2k.IsNavStateDirty(now);
    if d {
      sent' := Publish(n2k.fields);
      n2k.dirtyNavState := false;
    }
  }
}
