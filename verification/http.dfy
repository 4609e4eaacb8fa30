/**
  What every handler shares: the reply shapes (status code and whether the
  JSON body carries `success`), the method dispatch of the Netlify handlers,
  and how each runtime reads a query-string parameter.
 */
module Http {
  import opened Basics
  import Text

  /** The two 400 messages ("a keyword is required", "a script name is required"). */
  const KeywordRequired := "キーワードが必要です"
  const ScriptNameRequired := "台本名が必要です"
  /** The 404 message of the serverless detail handlers ("script not found"). */
  const ScriptNotFound := "台本が見つかりません"

  /**
    What a handler answers. `Unhandled` is a JavaScript handler whose returned
    promise rejects: the handler itself writes no response, so the hosting
    platform decides what the client sees.
   */
  datatype Reply<+T> =
    | Preflight                  // 200, empty body
    | MethodNotAllowed           // 405, {"error": "Method not allowed"}
    | BadRequest(error: string)  // 400, {"success": false, "error": ...}
    | NotFound(error: string)    // 404, {"success": false, "error": ...}
    | ServerError                // 500, {"success": false, "error": <exception text>}
    | NotImplemented             // 501, BaseHTTPRequestHandler's answer to a method it has no do_ method for
    | Unhandled                  // rejected promise, no response from the handler
    | Ok(payload: T)             // 200, {"success": true, ...payload}

  /** The status code the handler writes, if it writes one. */
  function Status<T>(r: Reply<T>): (code: Option<int>)
    ensures code.None? <==> r.Unhandled?
    ensures code.Some? ==> 200 <= code.value < 600
  {
    match r
    case Preflight => Some(200)
    case MethodNotAllowed => Some(405)
    case BadRequest(_) => Some(400)
    case NotFound(_) => Some(404)
    case ServerError => Some(500)
    case NotImplemented => Some(501)
    case Unhandled => None
    case Ok(_) => Some(200)
  }

  /** The `success` field of the JSON body; absent from the empty pre-flight body and from the 405 body. */
  function SuccessField<T>(r: Reply<T>): (flag: Option<bool>)
    ensures flag == Some(true) <==> r.Ok?
    ensures r.BadRequest? || r.NotFound? || r.ServerError? ==> flag == Some(false)
  {
    match r
    case Ok(_) => Some(true)
    case BadRequest(_) => Some(false)
    case NotFound(_) => Some(false)
    case ServerError => Some(false)
    case _ => None
  }

  /**
    The method dispatch every Netlify handler opens with: OPTIONS is answered
    at once, GET runs the handler body, anything else is refused.
   */
  function Dispatch<T>(httpMethod: string, onGet: Reply<T>): (r: Reply<T>)
    ensures httpMethod == "OPTIONS" ==> r == Preflight && Status(r) == Some(200)
    ensures httpMethod == "GET" ==> r == onGet
    ensures httpMethod != "GET" && httpMethod != "OPTIONS" ==> r == MethodNotAllowed && Status(r) == Some(405)
  {
    if httpMethod == "OPTIONS" then Preflight
    else if httpMethod == "GET" then onGet
    else MethodNotAllowed
  }

  /**
    The method dispatch of a Vercel `BaseHTTPRequestHandler`: it defines
    `do_GET` and `do_OPTIONS` (an empty 200), and the base class refuses
    every other method with 501 instead of 405.
   */
  function ServePy<T>(httpMethod: string, onGet: Reply<T>): (r: Reply<T>)
    ensures httpMethod == "OPTIONS" ==> r == Preflight
    ensures httpMethod == "GET" ==> r == onGet
    ensures httpMethod != "GET" && httpMethod != "OPTIONS" ==> r == NotImplemented && Status(r) == Some(501)
  {
    if httpMethod == "OPTIONS" then Preflight
    else if httpMethod == "GET" then onGet
    else NotImplemented
  }

  /**
    The two dispatches agree on GET and OPTIONS and differ only in how they
    refuse any other method; only a GET ever reaches the handler body, so
    only a GET can succeed.
   */
  lemma DispatchesDifferOnlyInRefusal<T>(httpMethod: string, onGet: Reply<T>, other: Reply<T>)
    ensures Dispatch(httpMethod, onGet) == ServePy(httpMethod, onGet) <==> httpMethod == "GET" || httpMethod == "OPTIONS"
    ensures httpMethod != "GET" ==>
              Dispatch(httpMethod, onGet) == Dispatch(httpMethod, other) && ServePy(httpMethod, onGet) == ServePy(httpMethod, other)
    ensures Dispatch(httpMethod, onGet).Ok? || ServePy(httpMethod, onGet).Ok? ==> httpMethod == "GET"
  {
  }

  /**
    `event.queryStringParameters.key || ''` in JavaScript, and
    `(event.get('queryStringParameters') or {}).get(key, '')` in Python: the
    raw value, or the empty string when the parameter is absent.
   */
  function RawParam(params: map<string, string>, key: string): (v: string)
    ensures key in params ==> v == params[key]
    ensures key !in params ==> v == ""
  {
    if key in params then params[key] else ""
  }

  /**
    `query_params.get(key, '').strip()` in the Netlify Python handler: the raw
    value with Python whitespace stripped, or the empty string.
   */
  function RawParamStripped(params: map<string, string>, key: string): (v: string)
    ensures key in params ==> v == Text.Trim(Text.Py, params[key])
    ensures key !in params ==> v == ""
  {
    Text.Trim(Text.Py, RawParam(params, key))
  }

  /**
    `parse_qs(query).get(key, [''])[0]` followed by `.strip()`: the first value
    given for the parameter, with Python whitespace stripped.
   */
  function FirstValueStripped(params: map<string, seq<string>>, key: string): (v: string)
    ensures key !in params || |params[key]| == 0 ==> v == ""
    ensures key in params && |params[key]| > 0 ==> v == Text.Trim(Text.Py, params[key][0])
  {
    if key in params && |params[key]| > 0 then Text.Trim(Text.Py, params[key][0]) else ""
  }

  /**
    What a stripped parameter reads as: the empty string exactly when the
    parameter is absent or made only of Python whitespace, and otherwise a
    value with no whitespace at either end cut out of the raw one.
   */
  lemma StrippedParamIsEmptyIffBlank(params: map<string, string>, key: string)
    ensures RawParamStripped(params, key) == "" <==> key !in params || Text.AllPass(Text.Spaces(Text.Py), params[key])
    ensures var v := RawParamStripped(params, key);
            v != "" ==> key in params && Text.Contains(params[key], v)
                        && !Text.IsSpace(Text.Py, v[0]) && !Text.IsSpace(Text.Py, v[|v| - 1])
  {
    if key in params {
      Text.TrimEmptyIffBlank(Text.Py, params[key]);
      var v := Text.Trim(Text.Py, params[key]);
      var i := Text.LeadingRun(Text.Spaces(Text.Py), params[key]);
      assert Text.OccursAt(params[key], v, i);
      Text.ContainsFromOccurrence(params[key], v, i);
    }
  }

  /** The same for the first of the values `parse_qs` collected for a parameter. */
  lemma FirstValueIsEmptyIffBlank(params: map<string, seq<string>>, key: string)
    ensures FirstValueStripped(params, key) == "" <==>
              key !in params || |params[key]| == 0 || Text.AllPass(Text.Spaces(Text.Py), params[key][0])
    ensures var v := FirstValueStripped(params, key);
            v != "" ==> key in params && |params[key]| > 0 && Text.Contains(params[key][0], v)
                        && !Text.IsSpace(Text.Py, v[0]) && !Text.IsSpace(Text.Py, v[|v| - 1])
  {
    if key in params && |params[key]| > 0 {
      StrippedParamIsEmptyIffBlank(map[key := params[key][0]], key);
    }
  }
}
