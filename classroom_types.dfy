/** A classroom record (`ClassroomT`) as the navigation, the path labels and
    the classroom list cache see it. The optional icon field is not read by
    any of them and is left out. */
module ClassroomTypes {
  import opened Wrappers

  datatype Period = Morning | Afternoon | Evening
  datatype ClassroomStatus = Created | Active | Finished

  datatype Classroom = Classroom(id: string, name: string, period: Period, status: ClassroomStatus,
                                 createdAt: string, updatedAt: Option<string>)

  /** The period as the string the icon table is keyed by. */
  function PeriodName(p: Period): string
  {
    match p
    case Morning => "morning"
    case Afternoon => "afternoon"
    case Evening => "evening"
  }
}
