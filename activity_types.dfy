/** The records of the activities feature: students, activities with their
    per-email justification dictionaries, and the per-student submission
    status shown in the tables. */
module ActivityTypes {
  import opened Wrappers

  /** Entregue (delivered), Falta (missing), Pendência Justificada (justified). */
  datatype Status = E | F | PJ

  datatype Student = Student(id: string, name: string, email: string)

  /** A stored justification, keyed by the student's email. */
  datatype Justification = Justification(reason: string, createdBy: string, createdAt: string,
                                         updatedAt: Option<string>)

  /** `justifications` is `None` when the column is null; `createdAt` is the
      activity's creation timestamp as text. */
  datatype Activity = Activity(id: string, participantsEmail: Option<seq<string>>,
                               justifications: Option<map<string, Justification>>, createdAt: string)

  /** The part of a justification copied into a status. */
  datatype JustificationInfo = JustificationInfo(reason: string, createdBy: string, createdAt: string)

  datatype SubmissionStatus = SubmissionStatus(student: Student, status: Status,
                                               justification: Option<JustificationInfo>,
                                               submittedAt: Option<string>)

  datatype Summary = Summary(total: nat, submitted: nat, missing: nat, justified: nat, submissionRate: real)
}
