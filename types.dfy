/** The records of the electoral survey database (src/types/database.ts). */
module Types {

  datatype Option<T> = None | Some(value: T)

  /** The two roles stored in user_roles. */
  datatype Role = Interviewer | Administrator

  /** Lifecycle of an interview record. */
  datatype InterviewStatus = Draft | Completed | Submitted | Approved | Rejected

  datatype QuestionType = SingleChoice | MultipleChoice | Text | Number | Rating

  /** An answer is a text, a number or the list of selected option labels. */
  datatype AnswerValue =
    | TextAnswer(text: string)
    | NumberAnswer(number: real)
    | ChoicesAnswer(choices: seq<string>)

  datatype InterviewAnswer = InterviewAnswer(questionId: string, answer: AnswerValue)

  datatype Interview = Interview(
    id: string,
    surveyId: string,
    interviewerId: string,
    respondentName: Option<string>,
    respondentAge: Option<int>,
    respondentGender: Option<string>,
    respondentLocation: Option<string>,
    latitude: Option<real>,
    longitude: Option<real>,
    accuracy: Option<real>,
    answers: seq<InterviewAnswer>,
    status: InterviewStatus,
    isOffline: bool,
    offlineSynced: bool,
    createdAt: string,
    updatedAt: string,
    completedAt: Option<string>)

  /** The `status === 'completed'` test used by the upload sweep and the reports. */
  predicate IsCompleted(iv: Interview) {
    iv.status == Completed
  }

  datatype SurveyQuestion = SurveyQuestion(
    id: string,
    question: string,
    questionType: QuestionType,
    options: Option<seq<string>>,
    required: bool)

  datatype Survey = Survey(
    id: string,
    title: string,
    description: Option<string>,
    questions: seq<SurveyQuestion>,
    isActive: bool,
    createdBy: Option<string>,
    createdAt: string,
    updatedAt: string)
}
