# Heart-o-Meter prediction service: request encoding, SHAP summary, plot features

This project models the deterministic logic inside three Flask handlers of the
Heart-o-Meter heart-disease prediction service (`app.py`), with the
web framework, pandas and the machine-learning libraries taken away.

- **Request encoding** (`/predict`, module `RequestEncoding`). The posted JSON object of
  clinical fields becomes one feature row over the model's columns
  (`MODEL_COLUMNS`, the population CSV's columns without `HeartDisease`).
  The five categorical fields `Sex`, `ChestPainType`, `RestingECG`,
  `ExerciseAngina` and `ST_Slope` are one-hot encoded. Each present field sets
  the column `<field>_<value>` to 1 in the input frame. A zero-filled row over
  the model columns is then created, and every input column that is a model
  column is copied into it.
  `Encode` is the reference definition. `EncodeRequest` is the handler's
  step-by-step version. It keeps a map for the input frame, updates the
  one-hot columns field by field, fills an array with zeros and copies the
  columns into it. The method is proved equal to `Encode`. It visits the input
  columns in an arbitrary order, so the proof also shows that the order of the
  request's keys does not matter.
  A categorical field whose value is not a string makes `'<field>_' + value`
  raise. The handler then answers 400. The model returns `Err(CategoryNotText(field))`
  naming the first such field.
  Categories are not checked against the `*_cats` lists. Those lists are
  defined but never used. An unknown category's column is therefore dropped
  silently (`EncodeDropsUnknownCategory`).
- **SHAP top factors** (`/get_ai_analysis`, module `ShapSummary`). The
  client's `shap_data` dict becomes a sequence of `(feature, value)` factors
  in the dict's order. The handler keeps the factors with `abs(value) > 0.01`
  (`Significant`). It sorts them by magnitude, descending and stably
  (`SortByMagnitude`, an insertion sort standing for Python's `sorted(...,
  reverse=True)`, which keeps ties in input order). It takes the first five
  (`TopFactors`) and writes a header line plus one line per factor. If no
  factor passes the threshold, the text becomes a fixed fallback line
  (`Summarize`). Values are `real`: the code only takes `abs` and compares.
- **Plot features** (`/plot_data`, module `PlotFeatures`). Of the five
  fixed features `RestingBP`, `Cholesterol`, `RestingHR`, `MaxHR` and
  `Oldpeak`, each one that is a column of the population table gets an entry,
  in the listed order. Missing ones are skipped (`SelectPlotFeatures`).

Module `JsonValues` holds the scalar JSON `Value` type and the `Result` type
shared by the others.

## Model

| member | source | states |
|---|---|---|
| `RequestEncoding.EncodeRequest` | app.py:104-136 | The imperative preprocessing (one-hot assignments, zero-filled row, copy loop over the input columns in any order) returns exactly `Encode(columns, data)`: the same row, or the same error |
| `RequestEncoding.AddOneHotsEffect` | app.py:114-124 | The one-hot pass fails iff some processed field holds a non-string. On success the frame gains exactly the `<field>_<value>` columns, each set to 1 (overriding a value the request sent under that name), and every other column keeps its value |
| `RequestEncoding.FirstNonTextCategory` | app.py:115-124 | A failing one-hot pass reports the first field, in processing order, whose value is not a string; no earlier field is non-string |
| `RequestEncoding.EncodeFailsOnNonTextCategory` | app.py:115-124 | Encoding fails iff a categorical field is present with a non-string value, and the error names the first such field of `Sex, ChestPainType, RestingECG, ExerciseAngina, ST_Slope` |
| `RequestEncoding.EncodeCell` | app.py:126-136 | The row has one cell per model column, in model-column order. A column switched on by a categorical field is 1. Any other column the request sends is copied unchanged. Every remaining column is 0 |
| `RequestEncoding.AddOneHotsLocal` | app.py:115-124 | The one-hot pass reads only the processed fields. It gives the same error, or frames that agree on any key set on which the input frames agreed |
| `RequestEncoding.EncodeIgnoresUnknownKeys` | app.py:115-133 | Keys that are not model columns never reach the row, and a raw categorical value (the raw `Sex` key among them) reaches it only through its one-hot column: requests that agree on the model columns, on which categorical fields hold non-strings, and on which one-hot columns among the model columns they switch on encode identically |
| `RequestEncoding.AddOneHotsErrorLocal` | app.py:115-124 | The error the one-hot pass reports depends only on which processed fields hold non-strings |
| `RequestEncoding.EncodeDropsUnknownCategory` | app.py:107-124 | When a categorical field is not itself a model column and its one-hot column is not a model column either, the category is dropped silently: the row equals the row of the request without that field (no check against the category lists) |
| `ShapSummary.Significant` | app.py:232 | Every kept factor is an input factor (name and value unchanged) with magnitude strictly above 0.01, and every such input factor is kept |
| `ShapSummary.SignificantCounts` | app.py:232 | The filter keeps each factor of magnitude above 0.01 as many times as the input holds it, and no other factor |
| `ShapSummary.SignificantKeepsTieOrder` | app.py:232 | For each magnitude above 0.01 the filter keeps that magnitude's factors in input order; below it, none |
| `ShapSummary.Insert` | app.py:234 | Inserting one factor adds exactly that factor (multiset) |
| `ShapSummary.SortByMagnitude` | app.py:234 | The sort is a permutation of its input |
| `ShapSummary.InsertKeepsOrder` | app.py:234 | Inserting into a sequence ordered by non-increasing magnitude keeps it ordered |
| `ShapSummary.SortIsOrdered` | app.py:234 | The sorted factors are in non-increasing order of absolute value |
| `ShapSummary.InsertKeepsTieOrder` | app.py:234 | An inserted factor lands before all factors of equal magnitude and leaves their order alone |
| `ShapSummary.SortKeepsTieOrder` | app.py:234 | The sort is stable: for every magnitude, the factors of that magnitude appear in input order |
| `ShapSummary.TopFactors` | app.py:237 | The listed factors number min(5, number of significant factors), are input factors above the threshold, and are in non-increasing magnitude order |
| `ShapSummary.TopFactorsKeepTieOrder` | app.py:234-237 | For any magnitude, the listed factors of that magnitude are the first ones of that magnitude in the request, in request order |
| `ShapSummary.PrefixIsLargest` | app.py:237 | A prefix of a magnitude-ordered sequence holds its largest elements: nothing after it exceeds anything in it |
| `ShapSummary.TopFactorsAreLargest` | app.py:237 | The listed factors are a sub-multiset of the significant ones, and no significant factor left off the list is larger in magnitude than a listed one |
| `ShapSummary.Summarize` | app.py:232-241 | With no factor above 0.01 the text is exactly the fixed "No single factor strongly influenced this prediction." line. Otherwise it is the header line followed by one line per listed factor, in order |
| `PlotFeatures.SelectPlotFeatures` | app.py:187-206 | A feature gets an entry iff it is one of the five plot features and a column of the population table, and entries come in the listed order without repeats |

## Left out

- The heart-rate camera pipeline (frame sampling, red-channel signal, validity gating, live chart, measurement session) is not part of this model. No code of it is in `app.py` or `test_webcam.py`.
- Flask routing, page serving and JSON response shaping (app.py:74-87, 158-164, 208). Flask's `jsonify` may also sort the keys of its reply; the order modelled in `SelectPlotFeatures` is the order in which the handler builds its dict.
- Loading the model and CSV, environment and API-key configuration, and the handlers' "not loaded" 500 replies (app.py:17-46, 98-99, 183-184, 222-223): file I/O and process setup. The model columns are a parameter.
- `model.predict`, `predict_proba`, the SHAP `KernelExplainer` and `shap_values` (app.py:48-69, 139-153): calls into foreign ML libraries.
- `calculate_kde` and the density curves (app.py:173-178, 198-206): SciPy floating-point numerics. `SelectPlotFeatures` returns only the keys that get curves. A KDE failure, which turns the whole reply into a 500, is not modelled.
- Percent formatting, `round(val, 4)` and the `:.4f` text of each factor line (app.py:153, 160-161, 238): float formatting. A listed line is the abstract `Listed(factor)`.
- Floating point: SHAP values and the 0.01 threshold are exact reals.
- The Gemini system prompt, the user-data string and the `generate_content` call (app.py:247-293): an external network service.
- JSON values that are arrays or objects among the clinical fields of `/predict`, and a body that is not a JSON object: a `Value` is a number, string, boolean or null.
- The text of the 400 reply for a non-string category (app.py:116-124, 166-169): Python's TypeError message names the value's type, not the field. `CategoryNotText(field)` records the field that raised instead.
- A `shap_data` that is present but null or not an object makes `.items()` raise, and the handler answers 500 (app.py:228, 232). `Summarize` takes the dict's entries, so this case is outside the model.
- Repeated keys in the `shap_data` JSON object: the decoder keeps the last value at the first key's position, so the dict's feature names are distinct. The model's sequence may repeat names and does not rely on distinctness, but it takes the dict after that collapse, not the raw JSON text.
- The warning `plot_data` logs for a missing feature (app.py:195): logging. A population table without a `HeartDisease` column makes the group split raise a KeyError, and the handler answers 500 (app.py:190-191, 210-213). `SelectPlotFeatures` models only the feature loop.
- Non-numeric SHAP values (which make `abs` raise and the handler answer 500): factors carry reals.
- `data.get('shap_data', {})` (app.py:228): `Summarize` takes the factor sequence after that default, so an absent key is the empty sequence.
- Duplicate model columns: the CSV header gives distinct names. The model sets every position that carries a copied name and does not depend on that.
- test_webcam.py: a Streamlit/WebRTC smoke test with no logic of its own.
