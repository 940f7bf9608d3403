# Quota dashboard: formatting and authentication core

A Dafny model of the two self-contained modules of a small web dashboard that
shows a user's storage-quota usage on a VAST cluster:

- `modules/formatting.py` — `format_bytes` walks the units B, KB, MB, GB, TB,
  PB, dividing by 1024 until the value is below 1024 (`None` gives "N/A");
  `calculate_percentage` and `calculate_drr` are divisions that give 0 when the
  divisor is 0. Module `Formatting` (formatting.dfy). Numbers are exact `real`s.
  A formatted byte count is a `Display`: `NotAvailable`, or `Scaled(value, unit)`
  with `unit` an index into `UnitNames`. `format_bytes` is the method
  `FormatBytes`, a loop over the units proved equal to `FormatBytesSpec`. That
  function picks the unit by thresholds (`UnitIndex`: the first `k` with
  `n < 1024^(k+1)`), not by repeated division.
- `modules/auth.py` — `get_current_user` reads `REMOTE_USER` from the request
  environment. An empty or missing principal gives the fixed test user
  `rwalsh`. A principal with an `@` gives the text before its first `@`. Any
  other principal is returned as it is. `login_required` answers 403 when that
  user is empty and calls the route handler otherwise. Module `Auth`
  (auth.dfy). The environment is a `map<string, string>`, `abort(403, …)` is
  the `Abort` case of `Response`, and `str.split('@')` is `Split`, proved
  against its inverse `Join`.

`Wrappers` (wrappers.dfy) holds the `Option` type that stands for Python's `None`.

## Model

| member | source | states |
|---|---|---|
| Formatting.FormatBytes | modules/formatting.py:3-12 | The unit loop returns exactly `FormatBytesSpec`. `None` and only `None` gives "N/A". Every other input gets a unit index in B..PB. |
| Formatting.UnitIndexIsFirst | modules/formatting.py:8-11 | The chosen unit is the first at which the input, divided by 1024 once per earlier unit, is below 1024. If there is none, the unit is PB. |
| Formatting.FirstFitIsFirst | modules/formatting.py:8-11 | Starting from any unit, no unit before the chosen one fits, and the chosen one fits unless it is PB. |
| Formatting.UnitIndexMonotone | modules/formatting.py:8-11 | A larger input never gets a smaller unit index. |
| Formatting.ReportedUnitIsUnitIndex | modules/formatting.py:8-12 | The unit `format_bytes` reports is the chosen unit `UnitIndex(n)` on every input, including those that fall through to PB. |
| Formatting.ReportedUnitMonotone | modules/formatting.py:8-12 | A larger input is never reported in a smaller unit. |
| Formatting.SmallInputsAreBytes | modules/formatting.py:5-10 | `None` is "N/A". Any input below 1024, 0 and negatives included, is reported in B and not divided. |
| Formatting.ReportedValueIsExact | modules/formatting.py:8-11 | Below 1024^6, the reported number times the size of its unit is the input. |
| Formatting.ReportedValueBelow1024 | modules/formatting.py:8-12 | A non-negative input below 1024^6 is reported as a number in [0, 1024). |
| Formatting.FallThroughDividesSixTimes | modules/formatting.py:8-12 | From 1024^6 up, the input falls through the loop. It is reported as n / 1024^6 labelled PB, so number times the PB size is n / 1024, not n. |
| Formatting.OneExbibyteIsOnePB | modules/formatting.py:8-12 | 1024^6 bytes is reported as 1.0 PB. |
| Formatting.FormatBytesFixed | modules/formatting.py:3-12 | The corrected loop does not divide after PB. It returns exactly `FormatBytesIntended`. |
| Formatting.IntendedIsExact | modules/formatting.py:8-12 | With the correction, the reported number times its unit's size is the input for every input. |
| Formatting.IntendedDiffersOnlyOnFallThrough | modules/formatting.py:8-12 | The code and the correction agree exactly on the inputs below 1024^6. |
| Formatting.CalculatePercentage | modules/formatting.py:14-18 | A total of 0 gives 0. Otherwise the result times the total is 100 times the used amount. |
| Formatting.PercentageWithinQuota | modules/formatting.py:14-18 | 0 <= used <= total with total > 0 gives a percentage in [0, 100]. |
| Formatting.PercentageOverQuota | modules/formatting.py:14-18 | The result is not clamped: used > total > 0 gives more than 100. |
| Formatting.CalculateDrr | modules/formatting.py:20-24 | An effective size of 0 gives 0. Otherwise the ratio times the effective size is the logical size. |
| Formatting.DrrAtLeastOne | modules/formatting.py:20-24 | Logical >= effective > 0 gives a ratio of at least 1. Equal sizes give exactly 1. |
| Formatting.WorkedValues | modules/formatting.py:3-24 | 0 is 0.0 B and 1536 is 1.5 KB. percentage(50, 200) is 25, because the code computes used / total * 100. 549755813888 of 1099511627776 is 50 percent, and drr(200, 100) is 2. |
| Auth.Split | modules/auth.py:16 | `split('@')` gives at least one piece, and no piece holds the separator. The first piece is a prefix of the input, followed by the separator whenever it is shorter than the input. |
| Auth.JoinSplit | modules/auth.py:16 | Joining the pieces of a split with the separator gives back the input. |
| Auth.SplitJoin | modules/auth.py:16 | Splitting a join of separator-free pieces gives back those pieces. |
| Auth.ExtractUser | modules/auth.py:11-17 | An empty principal gives "rwalsh". A principal without '@' is returned unchanged. With an '@', the result is exactly the text before the first '@'. The result never contains '@'. |
| Auth.GetCurrentUser | modules/auth.py:5-17 | A request without `REMOTE_USER` gets the test user. The user never contains '@'. |
| Auth.ExtractUserIdempotent | modules/auth.py:11-17 | A non-empty extracted user, used as a principal, extracts to itself. |
| Auth.LoginRequired | modules/auth.py:19-27 | The result is a 403 "Authentication required" exactly when the current user is empty. Otherwise it is the handler's result for the unchanged arguments. |
| Auth.RejectedIffLeadingAt | modules/auth.py:11-26 | Because of the testing-mode fallback, a request is rejected exactly when its principal starts with '@'. |

## Findings

| source | as written | input that shows it | evidently intended | confidence | as-written member | corrected member |
|---|---|---|---|---|---|---|
| modules/formatting.py:8-12 | The loop divides by 1024 on the PB step too. An input of 1024^6 or more falls out of the loop as n / 1024^6 and is then labelled PB. | 1024^6 bytes (1 EiB) is reported as 1.00 PB instead of 1024.00 PB. | Values that reach PB are not divided further, so the PB figure is n / 1024^5. | high; not executed | Formatting.FallThroughDividesSixTimes | Formatting.FormatBytesFixed |

## Left out

- Rendering: the `f"{x:.2f} {unit}"` text and Python float rounding are not modelled. The model gives the exact number and the unit index.
- Python numbers: int versus float results (the division guards return the int `0`), NaN, infinities and non-numeric inputs are not modelled. All inputs are exact reals.
- The Flask request proxy: `request.environ` is passed in as a map.
- `abort`: it raises an HTTP exception. The model returns it as the `Abort` value instead.
- `@wraps`: the copying of the handler's name and docstring is not modelled.
- The route handler: it is a pure function of its arguments. Python's `*args, **kwargs` become one argument value, and any side effects of the handler are not modelled.
- `app.py`: routing, templates, error pages, and the guard that skips `calculate_percentage` unless both figures are truthy. This is framework glue around the modelled functions.
- `config.py`: looking up the configuration file depends on the file system and environment variables.
- `modules/vast_client.py`: a thin wrapper over the vendor SDK. Its quota selection just takes the first quota.
- The test scripts (`test_vast_local.py`, `test_user_groups.py`, `test_capacity_breakdown.py`): network scripts that call the cluster and print the results. `test_vast_local.py` and `test_capacity_breakdown.py` also save JSON files. `test_user_groups.py` checks the shape of `get_user_groups` results with assertions and exits with a pass/fail code. `test_capacity_breakdown.py` passes quota figures to `format_bytes` and `calculate_drr` for display. None of the scripts checks a result of a modelled function.
- The SSH group lookup, the case-insensitive quota matcher and the capacity-breakdown reducer: `modules/vast_client.py` defines none of them. It has only `get_vast_client` and `get_quota_for_user`. `test_vast_local.py` and `test_user_groups.py` call `get_unix_groups` and `get_user_groups`, which it does not define, and `test_capacity_breakdown.py` reads a `capacity_breakdown` field that `get_quota_for_user` does not produce. Their behaviour cannot be read from the code, so they are not modelled.
