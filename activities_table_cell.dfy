/** One cell of the activities table: what a status looks like and what the
    pencil button does. */
module ActivitiesTableCell {
  import opened Wrappers
  import opened ActivityTypes

  datatype Display = Display(text: string, color: string, bgColor: string, tooltip: string,
                             showJustifyButton: bool, showEditButton: bool)

  const Missing := Display("F", "text-red-600", "bg-red-50", "Falta - Não entregue", true, false)

  /** `getStatusDisplay`; `formatDate` (a pt-BR locale rendering) is a
      parameter. A missing status looks like F. */
  function GetStatusDisplay(status: Option<SubmissionStatus>, formatDate: string -> string): (r: Display)
    ensures status.None? ==> r == Missing
    ensures r.text == (if status.Some? && status.value.status == E then "E"
                       else if status.Some? && status.value.status == PJ then "PJ" else "F")
    ensures r.showJustifyButton <==> status.None? || status.value.status == F
    ensures r.showEditButton <==> status.Some? && status.value.status == PJ
  {
    match status
    case None => Missing
    case Some(s) =>
      match s.status
      case E =>
        var at := if s.submittedAt.Some? && s.submittedAt.value != "" then " em " + formatDate(s.submittedAt.value) else "";
        Display("E", "text-green-600", "bg-green-50", "Entregue" + at, false, false)
      case PJ =>
        var why := if s.justification.Some? then ": " + s.justification.value.reason else "";
        Display("PJ", "text-yellow-600", "bg-yellow-50", "Pendência Justificada" + why, false, true)
      case F => Missing
  }

  datatype Action = JustifyPendency | EditJustification

  /** The pencil button: shown when either button flag is set; it justifies
      when the justify flag is set and otherwise edits, which does nothing
      without an edit handler. */
  function PencilClick(d: Display, hasEditHandler: bool): (r: Option<Action>)
    ensures r == Some(JustifyPendency) <==> d.showJustifyButton
    ensures r == Some(EditJustification) <==> !d.showJustifyButton && d.showEditButton && hasEditHandler
  {
    if !(d.showJustifyButton || d.showEditButton) then None
    else if d.showJustifyButton then Some(JustifyPendency)
    else if hasEditHandler then Some(EditJustification)
    else None
  }

  /** What a click on a cell does, by status: a delivered cell has no action,
      a justified cell edits (given a handler), a missing or empty cell
      justifies. */
  lemma CellAction(status: Option<SubmissionStatus>, formatDate: string -> string, hasEditHandler: bool)
    ensures var a := PencilClick(GetStatusDisplay(status, formatDate), hasEditHandler);
      (status.None? ==> a == Some(JustifyPendency))
      && (status.Some? && status.value.status == E ==> a.None?)
      && (status.Some? && status.value.status == F ==> a == Some(JustifyPendency))
      && (status.Some? && status.value.status == PJ ==> (a == Some(EditJustification) <==> hasEditHandler))
      && (status.Some? && status.value.status == PJ ==> a != Some(JustifyPendency))
  {
  }
}
