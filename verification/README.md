# Broadlink AC climate entity — Dafny model

This project models the climate entity of the Broadlink air-conditioner integration
for Home Assistant (`BroadlinkACClimate` in `climate.py`). The entity translates
between the air conditioner's own status and the host's normalised climate state:

- a **forward mode table** from the device's operating-mode codes (`COOLING`,
  `HEATING`, `DRY`, `FAN`, `AUTO`, looked up case-insensitively) to the host's HVAC
  modes, with OFF for anything else;
- a **reverse mode table** from HVAC modes back to device codes, with no entry for OFF;
- the **status projection** done by a poll (`async_update`);
- the **optimistic command handlers**: set temperature, set HVAC mode, set fan mode,
  turn on, turn off, and the `start`/`stop` aliases.

The device-control object (`ac_db`) is abstracted. The status a poll returns is an
input. Every call made on the device is recorded as a `Command` value. Each handler
is a pure function from the entity state to a `Step`: the new state, the device
calls issued, and whether the handler returned or raised.

Modules, one per concern:

- `Wrappers` (`wrappers.dfy`): `Option`, for attributes that may be `None`.
- `Ascii` (`ascii.dfy`): upper- and lower-casing of strings, which model Python's
  `str.upper` and `str.lower` as used in `climate.py`, and case-insensitive equality
  as an independent reference for them.
- `Modes` (`modes.dfy`): the `HvacMode` enumeration, its `str()` labels, the
  advertised mode lists, and the forward and reverse tables.
- `Climate` (`climate.dfy`): the device status, the entity state, the device
  commands, the poll and the command handlers. This module models the class
  `BroadlinkACClimate` in `climate.py`.
- `Trace` (`trace.dfy`): sequences of host calls on one entity, and the theorem that
  each attribute ends up holding the value its last writer wrote.

The code has inconsistencies. The model states them as they are and does not fix them:

- The reverse table is never used. The set-HVAC-mode handler sends `str(hvac_mode)`,
  the host's lower-case label such as `"cool"` or `"fan_only"`. It does not send the
  device code `"COOLING"` or `"FAN"` (`Modes.LabelIsNotNativeCode`,
  `Climate.SetHvacMode`). Read back through the forward table, the labels of COOL,
  HEAT and FAN_ONLY would give OFF.
- AUTO is missing from the advertised HVAC modes. Yet turning on sets AUTO
  (`Climate.TurnOn`), and a poll can yield it (`Climate.PollCanYieldUnsupportedMode`).
- The poll-failure guard `status is bool` tests for identity with the type `bool`
  itself, and no reply ever is that type. So a `False` reply is not caught. It
  reaches `status.get(...)`, which raises `AttributeError` before any attribute is
  assigned. The model keeps this faithfully: `Poll.NoReply` leaves the entity
  untouched and ends the step with `RaisedAttributeError`. The state is preserved, as
  intended, but through the exception and not through the guard.
- The power flag is compared with `"OFF"` exactly. A lower-case `"off"` does not
  override the mode (`Climate.LowerCaseOffDoesNotPowerOff`).
- A status dictionary is applied one attribute at a time. An absent key is read as
  `None`, and calling `.upper()` or `.lower()` on `None` raises. An absent mode
  (unless power is exactly `"OFF"`, when the mode is not read) raises after both
  temperatures have been overwritten. An absent fan speed raises after the
  temperatures and the HVAC mode have been overwritten. The model keeps these partial
  updates: `Climate.Update` ends such a poll with `RaisedAttributeError` and keeps the
  attributes assigned before the exception.

`str(hvac_mode)` yields the enumeration member's lower-case value, because the host's
`HVACMode` is a string-valued enumeration. It does not yield the qualified name
`HVACMode.COOL`. The fan-mode constants are the host's lower-case strings `"auto"`,
`"low"`, `"medium"` and `"high"`.

## Model

| member | source | states |
|---|---|---|
| `Ascii.Upper` | climate.py:126 | upper-casing keeps the length and upper-cases each character on its own, so no lower-case letter is left |
| `Ascii.Lower` | climate.py:81 | lower-casing keeps the length and lower-cases each character on its own, so no upper-case letter is left |
| `Modes.MapModeToHvac` | climate.py:118-126 | the forward mapping gives a mode of the reverse table exactly when the string spells that mode's device code in some mixture of cases, and gives OFF exactly when it spells none of them |
| `Modes.Label` | climate.py:92 | the string a mode command carries contains no upper-case letter |
| `Modes.LabelInjective` | climate.py:92 | distinct HVAC modes are sent as distinct strings |
| `Modes.MapHvacToMode` | climate.py:128-136 | the reverse mapping needs a mode other than OFF, returns an upper-case device code, and the forward mapping takes that code back to the same mode |
| `Modes.ReverseDomain` | climate.py:130-136 | the reverse table is defined exactly on COOL, HEAT, DRY, FAN_ONLY and AUTO, and OFF has no entry |
| `Modes.TablesInverse` | climate.py:118-136 | the forward table maps a code to a mode exactly when the reverse table maps that mode to the code |
| `Modes.ForwardIgnoresCase` | climate.py:118-126 | for every mode other than OFF, a string maps to that mode if and only if it spells the mode's device code in some mixture of cases |
| `Modes.ForwardFallback` | climate.py:126 | a string maps to OFF if and only if it spells none of the five device codes in any casing |
| `Modes.ForwardCaseInsensitive` | climate.py:126 | two strings that differ only in letter case map to the same mode |
| `Modes.LabelIsNotNativeCode` | climate.py:92 | the label sent for a mode is never that mode's device code, and read back through the forward table it gives the mode again only for DRY and AUTO |
| `Climate.Init` | climate.py:64-67 | a new entity has mode OFF, fan mode "auto" and no temperatures, and both modes are among the advertised ones |
| `Climate.Project` | climate.py:75-81 | for a status with a fan speed, and with a mode unless power is "OFF": temperatures are copied unchanged; power "OFF" forces OFF; otherwise the mode is the one whose code the status spells in any casing; the fan mode equals the reported speed up to case and has no upper-case letter |
| `Climate.Update` | climate.py:69-81 | a poll issues one forced status request; a complete reply replaces the state by its projection; a reply missing the mode (with power not "OFF") or the fan speed raises after overwriting the temperatures, and the HVAC mode too when the mode was read, and keeps the rest; a `False` reply raises and leaves the state unchanged |
| `Climate.SetTargetTemperature` | climate.py:83-88 | without a value nothing is sent and nothing changes; with a value exactly one set-temperature command carrying it is sent, and only the target temperature changes, to that value |
| `Climate.SetHvacMode` | climate.py:90-94 | exactly one mode command is sent, carrying the label of the requested mode and not the mode's device code; only the HVAC mode changes, to the requested mode |
| `Climate.SetFanMode` | climate.py:96-100 | exactly one fan command is sent, carrying the requested mode in upper case; only the fan mode changes, to the argument exactly as given |
| `Climate.TurnOn` | climate.py:102-104 | turning on is setting the mode AUTO, which is not an advertised mode |
| `Climate.TurnOff` | climate.py:106-108 | turning off is setting the mode OFF |
| `Climate.Start` | climate.py:110-112 | `start` is turning on and sends the single command "auto" |
| `Climate.Stop` | climate.py:114-116 | `stop` is turning off and sends the single command "off" |
| `Climate.UpdateForgetsPrior` | climate.py:75-81 | a poll yields the same state whatever the state was before if and only if the status is complete |
| `Climate.PowerOffIgnoresMode` | climate.py:77-78 | with power "OFF", changing the reported operating mode or leaving it out has no effect on the poll's outcome |
| `Climate.LowerCaseOffDoesNotPowerOff` | climate.py:77-80 | for every status whose power flag is a lower-case "off", the mode is not forced to OFF: a present mode goes through the forward table, and an absent one makes the poll raise |
| `Climate.ProjectedFanSupported` | climate.py:81 | a polled fan speed becomes an advertised fan mode if and only if it spells one in some mixture of cases |
| `Climate.FanModeReconciles` | climate.py:96-99 | when the device echoes the fan speed it was sent, the next poll gives back the lower-case fan mode that was set |
| `Climate.HvacModeReconciles` | climate.py:90-93 | when the device, powered on, reports the device code of the mode that was set, the next poll agrees with the optimistic mode |
| `Climate.PollCanYieldUnsupportedMode` | climate.py:120-126 | a powered-on status with mode "Auto" yields AUTO, which is not an advertised mode |
| `Climate.CoolingScenario` | climate.py:75-81 | a powered-on "cooling"/"low" status at 22.5 and 24 projects to COOL, "low", 22.5 and 24 |
| `Climate.PowerOffScenario` | climate.py:77-78 | the same status with power "OFF" projects to OFF |
| `Trace.Replay` | climate.py:83-116 | a sequence of calls makes one device call per call, except set-temperature without a value, which makes none |
| `Trace.HandleOnlyWrites` | climate.py:69-116 | every handler overwrites the attributes it writes with values that do not depend on the prior state, and leaves the rest unchanged |
| `Trace.ReplayLastWriteWins` | climate.py:69-116 | after any sequence of calls, each attribute holds the value written by the last call that writes it, or its initial value if none does |
| `Trace.PollResets` | climate.py:75-81 | after a poll of a complete status, the state is that poll's projection whatever calls came before |
| `Trace.TargetFrame` | climate.py:75-87 | the target temperature changes only through a poll that gets a status dictionary or a set-temperature call with a value |

## Left out

- Home Assistant wiring is not modelled: `async_setup_entry`, the `hass.data` registry, the config entry, the entity name and unique id, the feature-flag bitmask, the temperature unit and `async_write_ha_state`. It is framework plumbing with no logic of its own.
- `ac_db` is not part of this model. Its setters are recorded as `Command` values, and the reply of `get_ac_status` is an input to `Climate.Update`.
- async/await and logging are not modelled. The host runs each handler to completion before the next one, so every handler is one sequential step.
- Temperatures are `real` values that are only ever copied. No floating-point arithmetic is modelled.
- Case folding is ASCII only. Python's `str.upper` and `str.lower` also fold non-ASCII letters, and some of those fold onto ASCII: `"coolıng".upper()` is `"COOLING"`. Here a non-ASCII character is left as it is.
- Status values of the wrong type are not modelled. A key may be present or absent, but a present `mode`, `fanspeed` or `power` is a string and a present temperature is a number. A non-string `mode` or `fanspeed` would also raise at `.upper()`/`.lower()`.
- The host's `HVACMode` also has HEAT_COOL. The integration never names it, so `HvacMode` leaves it out.
- Whether a device accepts a command is not modelled. Each setter returns nothing, so the handlers update the state optimistically whatever the device then does.
- A device setter that raises is not modelled. Each handler calls the setter before its optimistic assignment (climate.py:86-87, 92-93, 98-99), so a raising setter would end the handler with the state unchanged. Here every setter returns, and every command handler ends with `Returned`.
